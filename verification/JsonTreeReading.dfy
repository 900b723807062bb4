/** The parser accepts exactly the texts of trees, and its literals are the leaves with their paths. */
module JsonTreeReading {
  import opened Texts
  import opened JsonText
  import opened JsonDocument
  import opened JsonRebuilding
  import opened JsonTree

  /** The literals among pieces, in order. */
  function LeavesOf(pieces: seq<Piece>): seq<Leaf> {
    if pieces == [] then []
    else (if pieces[0].Str? then [Leaf(pieces[0].raw, pieces[0].path, pieces[0].isKey)] else []) + LeavesOf(pieces[1..])
  }

  lemma {:induction false} LeavesJoin(a: seq<Piece>, b: seq<Piece>)
    ensures LeavesOf(a + b) == LeavesOf(a) + LeavesOf(b)
  {
    hide LeavesOf;
    if a == [] {
      assert a + b == b;
      NoLeaves();
    } else {
      assert a == [a[0]] + a[1..] && a + b == [a[0]] + (a[1..] + b);
      LeavesFront(a[0], a[1..]);
      LeavesFront(a[0], a[1..] + b);
      LeavesJoin(a[1..], b);
    }
  }

  lemma NoLeaves()
    ensures LeavesOf([]) == []
  {
  }

  lemma LeavesFront(piece: Piece, rest: seq<Piece>)
    ensures LeavesOf([piece] + rest) == (if piece.Str? then [Leaf(piece.raw, piece.path, piece.isKey)] else []) + LeavesOf(rest)
  {
    assert ([piece] + rest)[1..] == rest;
  }

  lemma {:induction false} LeavesCount(pieces: seq<Piece>)
    ensures |LeavesOf(pieces)| == Literals(pieces)
  {
    if pieces != [] {
      LeavesCount(pieces[1..]);
    }
  }

  /** A rule took `length` characters and found these leaves. */
  ghost predicate Reads(p: Option<Parsed>, length: nat, leaves: seq<Leaf>) {
    p.Some? && p.value.length == length && LeavesOf(p.value.pieces) == leaves && Literals(p.value.pieces) == |leaves|
  }

  lemma ReadsBoth(a: Parsed, m: nat, first: seq<Leaf>, b: Option<Parsed>, n: nat, second: seq<Leaf>)
    requires Reads(Some(a), m, first) && Reads(b, n, second)
    ensures Reads(Join(a, b), m + n, first + second)
  {
    LeavesJoin(a.pieces, b.value.pieces);
    LiteralsJoin(a.pieces, b.value.pieces);
  }

  // ---------------------------------------------------------------------------------------------
  // Every tree is read as its leaves.

  lemma SymbolInFront(blank: string, c: char, rest: string)
    requires AllBlank(blank) && !IsBlank(c)
    ensures var s := blank + ([c] + rest);
            && Symbol(s, c) == Some(Parsed([Gap(blank + [c])], |blank| + 1))
            && s[|blank| + 1..] == rest
            && Reads(Symbol(s, c), |blank| + 1, [])
            && Blanks(s) == |blank| && s[Blanks(s)] == c
  {
    var s := blank + ([c] + rest);
    BlanksInFront(blank, [c] + rest);
    assert s[|blank|] == c && s[..|blank| + 1] == blank + [c];
    GapHasNoLeaf(Gap(blank + [c]));
  }

  lemma GapHasNoLeaf(gap: Piece)
    requires gap.Gap?
    ensures LeavesOf([gap]) == [] && Literals([gap]) == 0
  {
    assert [gap][1..] == [];
  }

  lemma LiteralInFront(blank: string, raw: string, rest: string, path: Path, isKey: bool, count: nat)
    requires AllBlank(blank) && IsLiteral(raw) && count < MAX_TOKENS
    ensures var s := blank + (raw + rest);
            && StringToken(s, path, isKey, count) == Some(Parsed([Gap(blank), Str(raw, path, isKey)], |blank| + |raw|))
            && Reads(StringToken(s, path, isKey, count), |blank| + |raw|, [Leaf(raw, path, isKey)])
            && s[|blank| + |raw|..] == rest
            && Blanks(s) == |blank| && Blanks(s) < |s| && s[Blanks(s)] == '"'
  {
    hide Decode, InnerLength, StringToken;
    assert (raw + rest)[1..][..|raw| - 1] == raw[1..] == raw[1..][..|raw| - 1];
    InnerIsLocal(raw[1..], (raw + rest)[1..]);
    BlankLiteralReads(blank, raw, rest, path, isKey, count);
    BlanksInFront(blank, raw + rest);
    OneLeaf(Gap(blank), Str(raw, path, isKey));
  }

  lemma OneLeaf(gap: Piece, literal: Piece)
    requires gap.Gap? && literal.Str?
    ensures LeavesOf([gap, literal]) == [Leaf(literal.raw, literal.path, literal.isKey)] && Literals([gap, literal]) == 1
  {
    var pieces := [gap, literal];
    assert pieces[1..] == [literal] && [literal][1..] == [];
    assert LeavesOf([literal]) == [Leaf(literal.raw, literal.path, literal.isKey)] + [] && Literals([literal]) == 1;
    assert LeavesOf(pieces) == [] + LeavesOf([literal]);
  }

  /** Something that ends a word follows. */
  predicate Delimits(rest: string) {
    rest == "" || EndsPrimitive(rest[0])
  }

  lemma WordStarts(word: string, fits: string -> bool)
    requires IsPrimitive(word, fits)
    ensures word != "" && StartsPrimitive(word[0])
    ensures word[0] != '{' && word[0] != '[' && word[0] != '"'
  {
  }

  lemma BlankDelimits(blank: string, c: char, rest: string)
    requires AllBlank(blank) && EndsPrimitive(c)
    ensures Delimits(blank + ([c] + rest))
  {
    if blank != "" {
      assert IsBlank(blank[0]);
    }
  }

  lemma WordReads(blank: string, word: string, rest: string, path: Path, count: nat, fits: string -> bool)
    requires AllBlank(blank) && IsWord(word, fits) && Delimits(rest)
    ensures Reads(Value(blank + (word + rest), path, count, fits), |blank| + |word|, [])
  {
    hide IsPrimitive, StartsPrimitive, EndsPrimitive, Primitive;
    var s := blank + (word + rest);
    WordIs(word, fits);
    WordStarts(word, fits);
    BlankPrimitiveReads(blank, word, rest, fits);
    OtherValues(s, path, count, fits);
    GapHasNoLeaf(Gap(blank + word));
  }

  lemma LiteralReads(blank: string, raw: string, rest: string, path: Path, count: nat, fits: string -> bool)
    requires AllBlank(blank) && IsLiteral(raw) && count < MAX_TOKENS
    ensures Reads(Value(blank + (raw + rest), path, count, fits), |blank| + |raw|, [Leaf(raw, path, false)])
  {
    hide StringToken, IsLiteral, Reads;
    LiteralInFront(blank, raw, rest, path, false, count);
    OtherValues(blank + (raw + rest), path, count, fits);
  }

  lemma EmptyReads(blank: string, open: char, closed: char, close: string, rest: string, path: Path, count: nat, fits: string -> bool)
    requires AllBlank(blank) && AllBlank(close)
    requires (open == '{' && closed == '}') || (open == '[' && closed == ']')
    ensures Reads(Value(blank + ([open] + (close + ([closed] + rest))), path, count, fits), |blank| + |close| + 2, [])
  {
    hide Symbol, Value, Members, Items;
    var inner := close + ([closed] + rest);
    var s := blank + ([open] + inner);
    SymbolInFront(blank, open, inner);
    SymbolInFront(close, closed, rest);
    BracketStep(s, path, count, fits, Symbol(s, open).value);
    ReadsBoth(Symbol(s, open).value, |blank| + 1, [], Symbol(inner, closed), |close| + 1, []);
  }

  lemma {:induction false} TreeReads(n: Node, rest: string, path: Path, count: nat, fits: string -> bool)
    requires WellFormed(n, fits) && Delimits(rest) && count + |Leaves(n, path)| <= MAX_TOKENS
    ensures Reads(Value(Print(n) + rest, path, count, fits), |Print(n)|, Leaves(n, path))
    decreases n, 1
  {
    hide Value, Reads, IsWord, IsLiteral, AllBlank, Delimits, PrintEntries, PrintItems, EntryLeaves, ItemLeaves;
    match n
    case Word(blank, word) =>
      WordReads(blank, word, rest, path, count, fits);
      assert blank + word + rest == blank + (word + rest);
    case Literal(blank, raw) =>
      LiteralReads(blank, raw, rest, path, count, fits);
      assert blank + raw + rest == blank + (raw + rest);
    case EmptyObject(blank, close) =>
      EmptyReads(blank, '{', '}', close, rest, path, count, fits);
      assert Print(n) + rest == blank + (['{'] + (close + (['}'] + rest)));
    case EmptyList(blank, close) =>
      EmptyReads(blank, '[', ']', close, rest, path, count, fits);
      assert Print(n) + rest == blank + (['['] + (close + ([']'] + rest)));
    case Object(blank, entries) =>
      ObjectTreeReads(blank, entries, rest, path, count, fits);
      assert Print(n) + rest == blank + (['{'] + (PrintEntries(entries) + rest));
    case List(blank, items) =>
      ListTreeReads(blank, items, rest, path, count, fits);
      assert Print(n) + rest == blank + (['['] + (PrintItems(items) + rest));
  }

  lemma {:induction false} ObjectTreeReads(blank: string, b: ObjectBody, rest: string, path: Path, count: nat, fits: string -> bool)
    requires AllBlank(blank) && WellFormedEntries(b, fits) && Delimits(rest) && count + |EntryLeaves(b, path)| <= MAX_TOKENS
    ensures Reads(Value(blank + (['{'] + (PrintEntries(b) + rest)), path, count, fits), |blank| + 1 + |PrintEntries(b)|, EntryLeaves(b, path))
    decreases b, 3
  {
    hide Value, Symbol, Members, AllBlank, PrintEntries, EntryLeaves, WellFormedEntries, Delimits;
    var inner := PrintEntries(b) + rest;
    var s := blank + (['{'] + inner);
    SymbolInFront(blank, '{', inner);
    EntriesRead(b, rest, path, count, fits);
    ContentsAreOpen(inner, path, 0, count, fits);
    BracketStep(s, path, count, fits, Symbol(s, '{').value);
    ReadsBoth(Symbol(s, '{').value, |blank| + 1, [], Members(inner, path, count, fits), |PrintEntries(b)|, EntryLeaves(b, path));
    assert [] + EntryLeaves(b, path) == EntryLeaves(b, path);
  }

  lemma {:induction false} ListTreeReads(blank: string, b: ListBody, rest: string, path: Path, count: nat, fits: string -> bool)
    requires AllBlank(blank) && WellFormedItems(b, fits) && Delimits(rest) && count + |ItemLeaves(b, path, 0)| <= MAX_TOKENS
    ensures Reads(Value(blank + (['['] + (PrintItems(b) + rest)), path, count, fits), |blank| + 1 + |PrintItems(b)|, ItemLeaves(b, path, 0))
    decreases b, 3
  {
    hide Value, Symbol, Items, AllBlank, PrintItems, ItemLeaves, WellFormedItems, Delimits;
    var inner := PrintItems(b) + rest;
    var s := blank + (['['] + inner);
    SymbolInFront(blank, '[', inner);
    ItemsRead(b, rest, path, 0, count, fits);
    ContentsAreOpen(inner, path, 0, count, fits);
    BracketStep(s, path, count, fits, Symbol(s, '[').value);
    ReadsBoth(Symbol(s, '[').value, |blank| + 1, [], Items(inner, path, 0, count, fits), |PrintItems(b)|, ItemLeaves(b, path, 0));
    assert [] + ItemLeaves(b, path, 0) == ItemLeaves(b, path, 0);
  }

  lemma {:induction false} EntriesRead(b: ObjectBody, rest: string, path: Path, count: nat, fits: string -> bool)
    requires WellFormedEntries(b, fits) && Delimits(rest) && count + |EntryLeaves(b, path)| <= MAX_TOKENS
    ensures Reads(Members(PrintEntries(b) + rest, path, count, fits), |PrintEntries(b)|, EntryLeaves(b, path))
    decreases b, 2
  {
    hide Value, Symbol, StringToken, Members, MoreMembers, IsLiteral, AllBlank, Print, PrintEntriesTail, Leaves, EntryTailLeaves, Decode, Delimits, WellFormed, WellFormedEntriesTail, EntryLeaves, PrintEntries;
    var name := KeyName(b, fits);
    var inner := path + [Key(name)];
    var leaves, later := Leaves(b.value, inner), EntryTailLeaves(b.tail, path);
    EntryLeavesSplit(b, path, name);
    var s3 := PrintEntriesTail(b.tail) + rest;
    var s2 := Print(b.value) + s3;
    var s1 := b.colon + ([':'] + s2);
    var s := b.keyBlank + (b.key + s1);
    EntriesPrinted(b, rest);
    EntryInFront(b.keyBlank, b.key, b.colon, s2, path, count);
    EntriesTailDelimits(b.tail, rest, fits);
    TreeReads(b.value, s3, inner, count + 1, fits);
    EntriesTailRead(b.tail, rest, path, count + 1 + |leaves|, fits);
    var key, colon := StringToken(s, path, true, count).value, Symbol(s1, ':').value;
    var value := Value(s2, inner, count + 1, fits).value;
    var more := MoreMembers(s3, path, count + 1 + |leaves|, fits).value;
    PrintedSlices(b.value, s3);
    LeavesAreLiterals(value, |Print(b.value)|, leaves);
    EntryParts(s, s1, s2, s3, path, count, fits, key, colon, value, more, name);
    ReadsFour(s, path, count, fits, key, colon, value, more, |b.keyBlank| + |b.key|, |b.colon| + 1, |Print(b.value)|,
              |PrintEntriesTail(b.tail)|, Leaf(b.key, path, true), leaves, later);
  }

  lemma EntryInFront(keyBlank: string, key: string, colonBlank: string, s2: string, path: Path, count: nat)
    requires AllBlank(keyBlank) && IsLiteral(key) && AllBlank(colonBlank) && count < MAX_TOKENS
    ensures var s1 := colonBlank + ([':'] + s2);
            var s := keyBlank + (key + s1);
            && StringToken(s, path, true, count).Some? && Symbol(s1, ':').Some?
            && Reads(StringToken(s, path, true, count), |keyBlank| + |key|, [Leaf(key, path, true)])
            && Reads(Symbol(s1, ':'), |colonBlank| + 1, [])
            && StringToken(s, path, true, count).value.pieces[1].raw == key
            && s[StringToken(s, path, true, count).value.length..] == s1 && s1[Symbol(s1, ':').value.length..] == s2
  {
    hide StringToken, Symbol, AllBlank, IsLiteral, Reads;
    LiteralInFront(keyBlank, key, colonBlank + ([':'] + s2), path, true, count);
    SymbolInFront(colonBlank, ':', s2);
  }

  lemma LeavesAreLiterals(value: Parsed, n: nat, leaves: seq<Leaf>)
    requires Reads(Some(value), n, leaves)
    ensures value.length == n && Literals(value.pieces) == |leaves|
  {
  }

  lemma EntryParts(s: string, s1: string, s2: string, s3: string, path: Path, count: nat, fits: string -> bool,
                   key: Parsed, colon: Parsed, value: Parsed, more: Parsed, name: string)
    requires StringToken(s, path, true, count) == Some(key) && s[key.length..] == s1 && Decode(key.pieces[1].raw) == Some(name)
    requires Symbol(s1, ':') == Some(colon) && s1[colon.length..] == s2
    requires Value(s2, path + [Key(name)], count + 1, fits) == Some(value) && s2[value.length..] == s3
    requires MoreMembers(s3, path, count + 1 + Literals(value.pieces), fits) == Some(more)
    ensures MembersParts(s, path, count, fits, key, colon, value, more)
  {
    hide StringToken, Symbol, Value, MoreMembers, Decode;
  }

  lemma ReadsFour(s: string, path: Path, count: nat, fits: string -> bool, key: Parsed, colon: Parsed, value: Parsed, more: Parsed,
                  a: nat, b: nat, c: nat, d: nat, leaf: Leaf, leaves: seq<Leaf>, later: seq<Leaf>)
    requires MembersParts(s, path, count, fits, key, colon, value, more)
    requires Reads(Some(key), a, [leaf]) && Reads(Some(colon), b, []) && Reads(Some(value), c, leaves) && Reads(Some(more), d, later)
    ensures Reads(Members(s, path, count, fits), a + b + c + d, [leaf] + leaves + later)
  {
    hide Reads, MembersParts, Members;
    MembersStep(s, path, count, fits, key, colon, value, more);
    ReadsBoth(value, c, leaves, Some(more), d, later);
    ReadsBoth(colon, b, [], Join(value, Some(more)), c + d, leaves + later);
    ReadsBoth(key, a, [leaf], Join(colon, Join(value, Some(more))), b + (c + d), [] + (leaves + later));
    assert [leaf] + ([] + (leaves + later)) == [leaf] + leaves + later;
  }

  lemma EntryLeavesSplit(b: ObjectBody, path: Path, name: string)
    requires Decode(b.key) == Some(name)
    ensures EntryLeaves(b, path) == [Leaf(b.key, path, true)] + Leaves(b.value, path + [Key(name)]) + EntryTailLeaves(b.tail, path)
  {
    hide Decode, Leaves, EntryTailLeaves;
  }

  lemma KeyName(b: ObjectBody, fits: string -> bool) returns (name: string)
    requires WellFormedEntries(b, fits)
    ensures Decode(b.key) == Some(name)
  {
    name := Decode(b.key).value;
  }

  lemma EntriesPrinted(b: ObjectBody, rest: string)
    ensures PrintEntries(b) + rest == b.keyBlank + (b.key + (b.colon + ([':'] + (Print(b.value) + (PrintEntriesTail(b.tail) + rest)))))
    ensures |PrintEntries(b)| == |b.keyBlank| + |b.key| + |b.colon| + 1 + |Print(b.value)| + |PrintEntriesTail(b.tail)|
  {
    hide Print, PrintEntriesTail;
  }

  lemma PrintedSlices(n: Node, rest: string)
    ensures (Print(n) + rest)[|Print(n)|..] == rest
  {
    hide Print;
  }

  lemma EntriesTailDelimits(t: ObjectTail, rest: string, fits: string -> bool)
    requires WellFormedEntriesTail(t, fits)
    ensures Delimits(PrintEntriesTail(t) + rest)
  {
    hide AllBlank, Delimits, PrintEntries, WellFormedEntries;
    match t
    case EndObject(close) =>
      BlankDelimits(close, '}', rest);
      assert PrintEntriesTail(t) + rest == close + (['}'] + rest);
    case AndEntry(comma, body) =>
      BlankDelimits(comma, ',', PrintEntries(body) + rest);
      assert PrintEntriesTail(t) + rest == comma + ([','] + (PrintEntries(body) + rest));
  }

  lemma {:induction false} EntriesTailRead(t: ObjectTail, rest: string, path: Path, count: nat, fits: string -> bool)
    requires WellFormedEntriesTail(t, fits) && Delimits(rest) && count + |EntryTailLeaves(t, path)| <= MAX_TOKENS
    ensures Reads(MoreMembers(PrintEntriesTail(t) + rest, path, count, fits), |PrintEntriesTail(t)|, EntryTailLeaves(t, path))
    decreases t, 2
  {
    hide Symbol, Members, AllBlank, PrintEntries, EntryLeaves, WellFormedEntries, Delimits;
    var s := PrintEntriesTail(t) + rest;
    match t
    case EndObject(close) =>
      assert s == close + (['}'] + rest);
      SymbolInFront(close, '}', rest);
    case AndEntry(comma, body) =>
      var inner := PrintEntries(body) + rest;
      assert s == comma + ([','] + inner);
      SymbolInFront(comma, ',', inner);
      CommaFront(s, '}');
      EntriesRead(body, rest, path, count, fits);
      ReadsBoth(Symbol(s, ',').value, |comma| + 1, [], Members(inner, path, count, fits), |PrintEntries(body)|, EntryLeaves(body, path));
      assert [] + EntryLeaves(body, path) == EntryLeaves(body, path);
  }

  lemma {:induction false} ItemsRead(b: ListBody, rest: string, path: Path, k: nat, count: nat, fits: string -> bool)
    requires WellFormedItems(b, fits) && Delimits(rest) && count + |ItemLeaves(b, path, k)| <= MAX_TOKENS
    ensures Reads(Items(PrintItems(b) + rest, path, k, count, fits), |PrintItems(b)|, ItemLeaves(b, path, k))
    decreases b, 2
  {
    hide Value, MoreItems, Print, PrintItemsTail, Leaves, ItemTailLeaves, Delimits, WellFormed, WellFormedItemsTail;
    var leaves, later := Leaves(b.value, path + [Index(k)]), ItemTailLeaves(b.tail, path, k + 1);
    var s1 := PrintItemsTail(b.tail) + rest;
    var s := Print(b.value) + s1;
    assert PrintItems(b) + rest == s;
    ItemsTailDelimits(b.tail, rest, fits);
    TreeReads(b.value, s1, path + [Index(k)], count, fits);
    ItemsTailRead(b.tail, rest, path, k + 1, count + |leaves|, fits);
    PrintedSlices(b.value, s1);
    ReadsBoth(Value(s, path + [Index(k)], count, fits).value, |Print(b.value)|, leaves,
              MoreItems(s1, path, k + 1, count + |leaves|, fits), |PrintItemsTail(b.tail)|, later);
  }

  lemma ItemsTailDelimits(t: ListTail, rest: string, fits: string -> bool)
    requires WellFormedItemsTail(t, fits)
    ensures Delimits(PrintItemsTail(t) + rest)
  {
    hide AllBlank, Delimits, PrintItems, WellFormedItems;
    match t
    case EndList(close) =>
      BlankDelimits(close, ']', rest);
      assert PrintItemsTail(t) + rest == close + ([']'] + rest);
    case AndItem(comma, body) =>
      BlankDelimits(comma, ',', PrintItems(body) + rest);
      assert PrintItemsTail(t) + rest == comma + ([','] + (PrintItems(body) + rest));
  }

  lemma {:induction false} ItemsTailRead(t: ListTail, rest: string, path: Path, k: nat, count: nat, fits: string -> bool)
    requires WellFormedItemsTail(t, fits) && Delimits(rest) && count + |ItemTailLeaves(t, path, k)| <= MAX_TOKENS
    ensures Reads(MoreItems(PrintItemsTail(t) + rest, path, k, count, fits), |PrintItemsTail(t)|, ItemTailLeaves(t, path, k))
    decreases t, 2
  {
    hide Symbol, Items, AllBlank, PrintItems, ItemLeaves, WellFormedItems, Delimits;
    var s := PrintItemsTail(t) + rest;
    match t
    case EndList(close) =>
      assert s == close + ([']'] + rest);
      SymbolInFront(close, ']', rest);
    case AndItem(comma, body) =>
      var inner := PrintItems(body) + rest;
      assert s == comma + ([','] + inner);
      SymbolInFront(comma, ',', inner);
      CommaFront(s, ']');
      ItemsRead(body, rest, path, k, count, fits);
      ReadsBoth(Symbol(s, ',').value, |comma| + 1, [], Items(inner, path, k, count, fits), |PrintItems(body)|, ItemLeaves(body, path, k));
      assert [] + ItemLeaves(body, path, k) == ItemLeaves(body, path, k);
  }

  // ---------------------------------------------------------------------------------------------
  // Everything that is read is the text of a tree.

  /** What a rule took from the front of `s` is this text, with these leaves. */
  ghost predicate Took(s: string, p: Parsed, text: string, leaves: seq<Leaf>) {
    p.length <= |s| && s[..p.length] == text && LeavesOf(p.pieces) == leaves
  }

  lemma TookBoth(s: string, a: Parsed, first: string, leaves: seq<Leaf>, b: Parsed, second: string, later: seq<Leaf>)
    requires Took(s, a, first, leaves) && Took(s[a.length..], b, second, later)
    ensures Took(s, Join(a, Some(b)).value, first + second, leaves + later)
  {
    LeavesJoin(a.pieces, b.pieces);
    assert s[..a.length + b.length] == s[..a.length] + s[a.length..][..b.length];
  }

  lemma SymbolTook(s: string, c: char) returns (blank: string)
    requires Symbol(s, c).Some?
    ensures AllBlank(blank) && Took(s, Symbol(s, c).value, blank + [c], [])
  {
    var w := Blanks(s);
    blank := s[..w];
    assert s[..w + 1] == blank + [c];
    GapHasNoLeaf(Gap(s[..w + 1]));
  }

  lemma LiteralTook(s: string, path: Path, isKey: bool, count: nat) returns (blank: string, raw: string)
    requires StringToken(s, path, isKey, count).Some?
    ensures AllBlank(blank) && IsLiteral(raw) && count < MAX_TOKENS
    ensures Took(s, StringToken(s, path, isKey, count).value, blank + raw, [Leaf(raw, path, isKey)])
    ensures StringToken(s, path, isKey, count).value.pieces[1].raw == raw
  {
    hide Decode, InnerLength, StringToken, Concat;
    blank, raw := StringFront(s, path, isKey, count, "");
    assert raw + "" == raw;
    StringTiles(s, path, isKey, count);
    ConcatTwo(Gap(blank), Str(raw, path, isKey));
    OneLeaf(Gap(blank), Str(raw, path, isKey));
  }

  lemma WordTook(s: string, fits: string -> bool) returns (blank: string, word: string)
    requires Primitive(s, fits).Some?
    ensures AllBlank(blank) && IsWord(word, fits)
    ensures Took(s, Primitive(s, fits).value, blank + word, [])
  {
    hide IsPrimitive, EndsPrimitive, Primitive, Concat;
    blank, word := PrimitiveFront(s, fits);
    WordIs(word, fits);
    PrimitiveTiles(s, fits);
    ConcatOne(Gap(blank + word));
    GapHasNoLeaf(Gap(blank + word));
  }

  /** The tree of a value that was read. */
  ghost predicate IsTreeOf(n: Node, s: string, p: Option<Parsed>, path: Path, count: nat, fits: string -> bool) {
    && p.Some? && WellFormed(n, fits) && count + |Leaves(n, path)| <= MAX_TOKENS
    && Took(s, p.value, Print(n), Leaves(n, path))
  }

  ghost predicate AreEntriesOf(b: ObjectBody, s: string, p: Option<Parsed>, path: Path, count: nat, fits: string -> bool) {
    && p.Some? && WellFormedEntries(b, fits) && count + |EntryLeaves(b, path)| <= MAX_TOKENS
    && Took(s, p.value, PrintEntries(b), EntryLeaves(b, path))
  }

  ghost predicate IsEntriesTailOf(t: ObjectTail, s: string, p: Option<Parsed>, path: Path, count: nat, fits: string -> bool) {
    && p.Some? && WellFormedEntriesTail(t, fits) && count + |EntryTailLeaves(t, path)| <= MAX_TOKENS
    && Took(s, p.value, PrintEntriesTail(t), EntryTailLeaves(t, path))
  }

  ghost predicate AreItemsOf(b: ListBody, s: string, p: Option<Parsed>, path: Path, k: nat, count: nat, fits: string -> bool) {
    && p.Some? && WellFormedItems(b, fits) && count + |ItemLeaves(b, path, k)| <= MAX_TOKENS
    && Took(s, p.value, PrintItems(b), ItemLeaves(b, path, k))
  }

  ghost predicate IsItemsTailOf(t: ListTail, s: string, p: Option<Parsed>, path: Path, k: nat, count: nat, fits: string -> bool) {
    && p.Some? && WellFormedItemsTail(t, fits) && count + |ItemTailLeaves(t, path, k)| <= MAX_TOKENS
    && Took(s, p.value, PrintItemsTail(t), ItemTailLeaves(t, path, k))
  }

  lemma {:induction false} ValueTree(s: string, path: Path, count: nat, fits: string -> bool) returns (n: Node)
    requires Value(s, path, count, fits).Some? && count <= MAX_TOKENS
    ensures IsTreeOf(n, s, Value(s, path, count, fits), path, count, fits)
    decreases |s|, 1
  {
    hide Value, Symbol, StringToken, Primitive, Members, Items, IsLiteral, IsWord, AllBlank, Took, StartsPrimitive;
    ValueOpens(s, path, count, fits);
    OpensWith(s, '{');
    OpensWith(s, '[');
    var c := s[Blanks(s)];
    if c == '{' {
      n := ObjectTree(s, path, count, fits);
    } else if c == '[' {
      n := ListTree(s, path, count, fits);
    } else {
      OtherValues(s, path, count, fits);
      if c == '"' {
        var blank, raw := LiteralTook(s, path, false, count);
        n := Literal(blank, raw);
      } else {
        var blank, word := WordTook(s, fits);
        n := Word(blank, word);
      }
    }
  }

  lemma {:induction false} ObjectTree(s: string, path: Path, count: nat, fits: string -> bool) returns (n: Node)
    requires Symbol(s, '{').Some? && Value(s, path, count, fits).Some? && count <= MAX_TOKENS
    ensures IsTreeOf(n, s, Value(s, path, count, fits), path, count, fits)
    decreases |s|, 0
  {
    hide Value, Symbol, Members, AllBlank, Took, PrintEntries, EntryLeaves, WellFormedEntries;
    var open := Symbol(s, '{').value;
    BracketStep(s, path, count, fits, open);
    OpensWith(s, '{');
    var blank := SymbolTook(s, '{');
    var rest := s[open.length..];
    if Symbol(rest, '}').Some? {
      var close := SymbolTook(rest, '}');
      n := EmptyObject(blank, close);
      TookBoth(s, open, blank + ['{'], [], Symbol(rest, '}').value, close + ['}'], []);
      assert blank + ['{'] + (close + ['}']) == Print(n);
    } else {
      var entries := EntriesTree(rest, path, count, fits);
      n := Object(blank, entries);
      TookBoth(s, open, blank + ['{'], [], Members(rest, path, count, fits).value, PrintEntries(entries), EntryLeaves(entries, path));
      assert [] + EntryLeaves(entries, path) == Leaves(n, path);
    }
  }

  lemma {:induction false} ListTree(s: string, path: Path, count: nat, fits: string -> bool) returns (n: Node)
    requires Symbol(s, '[').Some? && Value(s, path, count, fits).Some? && count <= MAX_TOKENS
    ensures IsTreeOf(n, s, Value(s, path, count, fits), path, count, fits)
    decreases |s|, 0
  {
    hide Value, Symbol, Items, AllBlank, Took, PrintItems, ItemLeaves, WellFormedItems;
    var open := Symbol(s, '[').value;
    BracketStep(s, path, count, fits, open);
    OpensWith(s, '[');
    var blank := SymbolTook(s, '[');
    var rest := s[open.length..];
    if Symbol(rest, ']').Some? {
      var close := SymbolTook(rest, ']');
      n := EmptyList(blank, close);
      TookBoth(s, open, blank + ['['], [], Symbol(rest, ']').value, close + [']'], []);
      assert blank + ['['] + (close + [']']) == Print(n);
    } else {
      var items := ItemsTree(rest, path, 0, count, fits);
      n := List(blank, items);
      TookBoth(s, open, blank + ['['], [], Items(rest, path, 0, count, fits).value, PrintItems(items), ItemLeaves(items, path, 0));
      assert [] + ItemLeaves(items, path, 0) == Leaves(n, path);
    }
  }

  lemma {:induction false} EntriesTree(s: string, path: Path, count: nat, fits: string -> bool) returns (b: ObjectBody)
    requires Members(s, path, count, fits).Some? && count <= MAX_TOKENS
    ensures AreEntriesOf(b, s, Members(s, path, count, fits), path, count, fits)
    decreases |s|, 0
  {
    hide Value, Symbol, StringToken, Members, MoreMembers, IsLiteral, AllBlank, Took, Print, PrintEntriesTail, Leaves, EntryTailLeaves, Decode, WellFormed, WellFormedEntriesTail;
    var key, colon, value, more := MembersFront(s, path, count, fits);
    var keyBlank, raw := LiteralTook(s, path, true, count);
    var s1 := s[key.length..];
    var colonBlank := SymbolTook(s1, ':');
    var s2 := s1[colon.length..];
    var name := Decode(raw).value;
    var n := ValueTree(s2, path + [Key(name)], count + 1, fits);
    ValueLiterals(n, s2, path + [Key(name)], count + 1, fits);
    var tail := EntriesTailTree(s2[value.length..], path, count + 1 + |Leaves(n, path + [Key(name)])|, fits);
    b := Entry(keyBlank, raw, colonBlank, n, tail);
    LiteralDecodes(raw);
    EntryLeavesSplit(b, path, name);
    TookFour(s, key, colon, value, more, b, path, name);
  }

  lemma LiteralDecodes(raw: string)
    requires IsLiteral(raw)
    ensures Decode(raw).Some?
  {
    hide Decode;
  }

  lemma ValueLiterals(n: Node, s: string, path: Path, count: nat, fits: string -> bool)
    requires IsTreeOf(n, s, Value(s, path, count, fits), path, count, fits)
    ensures Literals(Value(s, path, count, fits).value.pieces) == |Leaves(n, path)|
  {
    hide Value, Leaves, Print, WellFormed;
    LeavesCount(Value(s, path, count, fits).value.pieces);
  }

  lemma TookFour(s: string, key: Parsed, colon: Parsed, value: Parsed, more: Parsed, b: ObjectBody, path: Path, name: string)
    requires key.length <= |s| && key.length + colon.length <= |s| && key.length + colon.length + value.length <= |s|
    requires var inner, later := Leaves(b.value, path + [Key(name)]), EntryTailLeaves(b.tail, path);
             && Took(s, key, b.keyBlank + b.key, [Leaf(b.key, path, true)])
             && Took(s[key.length..], colon, b.colon + [':'], [])
             && Took(s[key.length..][colon.length..], value, Print(b.value), inner)
             && Took(s[key.length..][colon.length..][value.length..], more, PrintEntriesTail(b.tail), later)
    ensures Took(s, Join(key, Join(colon, Join(value, Some(more)))).value, PrintEntries(b),
                 [Leaf(b.key, path, true)] + Leaves(b.value, path + [Key(name)]) + EntryTailLeaves(b.tail, path))
  {
    hide Took, Leaves, EntryTailLeaves, Print, PrintEntriesTail;
    var inner, later := Leaves(b.value, path + [Key(name)]), EntryTailLeaves(b.tail, path);
    var s1 := s[key.length..];
    TookBoth(s1[colon.length..], value, Print(b.value), inner, more, PrintEntriesTail(b.tail), later);
    TookBoth(s1, colon, b.colon + [':'], [], Join(value, Some(more)).value, Print(b.value) + PrintEntriesTail(b.tail), inner + later);
    TookBoth(s, key, b.keyBlank + b.key, [Leaf(b.key, path, true)], Join(colon, Join(value, Some(more))).value,
             b.colon + [':'] + (Print(b.value) + PrintEntriesTail(b.tail)), [] + (inner + later));
    assert [Leaf(b.key, path, true)] + ([] + (inner + later)) == [Leaf(b.key, path, true)] + inner + later;
    assert b.keyBlank + b.key + (b.colon + [':'] + (Print(b.value) + PrintEntriesTail(b.tail))) == PrintEntries(b);
  }

  lemma {:induction false} EntriesTailTree(s: string, path: Path, count: nat, fits: string -> bool) returns (t: ObjectTail)
    requires MoreMembers(s, path, count, fits).Some? && count <= MAX_TOKENS
    ensures IsEntriesTailOf(t, s, MoreMembers(s, path, count, fits), path, count, fits)
    decreases |s|, 2
  {
    hide Symbol, Members, AllBlank, Took, PrintEntries, EntryLeaves, WellFormedEntries;
    if Symbol(s, '}').Some? {
      var close := SymbolTook(s, '}');
      t := EndObject(close);
    } else {
      var comma := Symbol(s, ',').value;
      OpensWith(s, ',');
      var blank := SymbolTook(s, ',');
      var rest := s[comma.length..];
      var body := EntriesTree(rest, path, count, fits);
      t := AndEntry(blank, body);
      TookBoth(s, comma, blank + [','], [], Members(rest, path, count, fits).value, PrintEntries(body), EntryLeaves(body, path));
      assert [] + EntryLeaves(body, path) == EntryTailLeaves(t, path);
    }
  }

  lemma {:induction false} ItemsTree(s: string, path: Path, k: nat, count: nat, fits: string -> bool) returns (b: ListBody)
    requires Items(s, path, k, count, fits).Some? && count <= MAX_TOKENS
    ensures AreItemsOf(b, s, Items(s, path, k, count, fits), path, k, count, fits)
    decreases |s|, 2
  {
    hide Value, MoreItems, Took, Print, PrintItemsTail, Leaves, ItemTailLeaves, WellFormed, WellFormedItemsTail;
    var inner := path + [Index(k)];
    var value := Value(s, inner, count, fits).value;
    var n := ValueTree(s, inner, count, fits);
    ValueLiterals(n, s, inner, count, fits);
    var rest := s[value.length..];
    var tail := ItemsTailTree(rest, path, k + 1, count + |Leaves(n, inner)|, fits);
    b := Item(n, tail);
    TookBoth(s, value, Print(n), Leaves(n, inner), MoreItems(rest, path, k + 1, count + |Leaves(n, inner)|, fits).value,
             PrintItemsTail(tail), ItemTailLeaves(tail, path, k + 1));
  }

  lemma {:induction false} ItemsTailTree(s: string, path: Path, k: nat, count: nat, fits: string -> bool) returns (t: ListTail)
    requires MoreItems(s, path, k, count, fits).Some? && count <= MAX_TOKENS
    ensures IsItemsTailOf(t, s, MoreItems(s, path, k, count, fits), path, k, count, fits)
    decreases |s|, 1
  {
    hide Symbol, Items, AllBlank, Took, PrintItems, ItemLeaves, WellFormedItems;
    if Symbol(s, ']').Some? {
      var close := SymbolTook(s, ']');
      t := EndList(close);
    } else {
      var comma := Symbol(s, ',').value;
      OpensWith(s, ',');
      var blank := SymbolTook(s, ',');
      var rest := s[comma.length..];
      var body := ItemsTree(rest, path, k, count, fits);
      t := AndItem(blank, body);
      TookBoth(s, comma, blank + [','], [], Items(rest, path, k, count, fits).value, PrintItems(body), ItemLeaves(body, path, k));
      assert [] + ItemLeaves(body, path, k) == ItemTailLeaves(t, path, k);
    }
  }

  // ---------------------------------------------------------------------------------------------
  // Whole texts.

  /** The text of a tree with white space behind it, and not too many literals. */
  ghost predicate IsTextOf(text: string, n: Node, fits: string -> bool) {
    && WellFormed(n, fits) && |Leaves(n, [])| <= MAX_TOKENS
    && exists tail :: AllBlank(tail) && text == Print(n) + tail
  }

  lemma TextIsRead(text: string, n: Node, fits: string -> bool)
    requires IsTextOf(text, n, fits)
    ensures JsonDocument.Parse(text, fits).Some?
    ensures LeavesOf(JsonDocument.Parse(text, fits).value) == Leaves(n, [])
  {
    hide Value, Print, Leaves, WellFormed, Reads;
    var tail :| AllBlank(tail) && text == Print(n) + tail;
    BlankTailDelimits(tail);
    TreeReads(n, tail, [], 0, fits);
    ReadsMeans(Value(text, [], 0, fits), |Print(n)|, Leaves(n, []));
    var value := Value(text, [], 0, fits).value;
    PrintedSlices(n, tail);
    BlanksInFront(tail, "");
    assert tail + "" == tail;
    LeavesJoin(value.pieces, [Gap(tail)]);
    GapHasNoLeaf(Gap(tail));
    assert Leaves(n, []) + [] == Leaves(n, []);
  }

  lemma ReadsMeans(p: Option<Parsed>, length: nat, leaves: seq<Leaf>)
    requires Reads(p, length, leaves)
    ensures p.Some? && p.value.length == length && LeavesOf(p.value.pieces) == leaves
  {
  }

  lemma BlankTailDelimits(tail: string)
    requires AllBlank(tail)
    ensures Delimits(tail)
  {
    if tail != "" {
      assert IsBlank(tail[0]);
    }
  }

  lemma ReadIsText(text: string, fits: string -> bool) returns (n: Node)
    requires JsonDocument.Parse(text, fits).Some?
    ensures IsTextOf(text, n, fits)
  {
    hide Value, Print, Leaves, WellFormed;
    var value := Value(text, [], 0, fits).value;
    n := ValueTree(text, [], 0, fits);
    var tail := text[value.length..];
    assert text == text[..value.length] + tail;
    assert AllBlank(tail);
  }

  /**
   * A text is accepted if and only if it is the text of a tree with at most 5,000 literals. Its
   * literals are then those of the tree, in order, and a value literal has a path if and only if
   * following that path in the tree leads to it; keys count under their names, items from zero.
   */
  lemma PathsFindTheirLiterals(text: string, fits: string -> bool)
    ensures JsonDocument.Parse(text, fits).Some? <==> exists n :: IsTextOf(text, n, fits)
    ensures forall n :: IsTextOf(text, n, fits) ==>
              && LeavesOf(JsonDocument.Parse(text, fits).value) == Leaves(n, [])
              && forall raw, path :: Leaf(raw, path, false) in Leaves(n, []) <==>
                   exists target :: Finds(n, path, target) && target.Literal? && target.raw == raw
  {
    hide JsonDocument.Parse, IsTextOf, Finds, Leaves;
    if JsonDocument.Parse(text, fits).Some? {
      var n := ReadIsText(text, fits);
    }
    forall n | IsTextOf(text, n, fits)
      ensures JsonDocument.Parse(text, fits).Some? && LeavesOf(JsonDocument.Parse(text, fits).value) == Leaves(n, [])
      ensures forall raw, path :: Leaf(raw, path, false) in Leaves(n, []) <==>
                exists target :: Finds(n, path, target) && target.Literal? && target.raw == raw
    {
      TextIsRead(text, n, fits);
      TextIsWellFormed(text, n, fits);
      forall raw, path
        ensures Leaf(raw, path, false) in Leaves(n, []) <==>
                exists target :: Finds(n, path, target) && target.Literal? && target.raw == raw
      {
        LeavesAreWhatPathsFind(n, raw, path, fits);
      }
    }
  }

  lemma TextIsWellFormed(text: string, n: Node, fits: string -> bool)
    requires IsTextOf(text, n, fits)
    ensures WellFormed(n, fits)
  {
  }
}
