/** HTML split into tags and visible text, and rebuilt with translated text. */
module HtmlDocument {
  import opened Texts
  import opened Strings
  import opened Documents
  import opened Tags

  /** A token and whether it may be translated. */
  datatype Piece = Piece(text: string, translatable: bool)

  const MAX_SEGMENTS: nat := 10_000

  predicate IsVoidTag(name: string) {
    name in {"area", "base", "br", "col", "embed", "hr", "img", "input", "link", "meta", "param", "source", "track", "wbr"}
  }

  predicate IsRawTag(name: string) {
    name == "script" || name == "style"
  }

  datatype TagName = TagName(name: Option<string>, closing: bool, selfClosing: bool)

  /** Name, closing flag and self-closing flag of a tag; declarations have no name. */
  function ParseTagName(raw: string): Result<TagName, DocumentError>
    requires 2 <= |raw|
  {
    var trimmed := Trim(raw[1..|raw| - 1]);
    if trimmed == "" then Err(InvalidStructure)
    else
      var closing := trimmed[0] == '/';
      var body := if closing then TrimStart(trimmed[1..]) else trimmed;
      if body != "" && (body[0] == '!' || body[0] == '?') then Ok(TagName(None, closing, false))
      else
        var shown := TrimEnd(body);
        var selfClosing := !closing && shown != "" && shown[|shown| - 1] == '/';
        var name := body[..NameEnd(body, 0)];
        if name == "" || exists k | 0 <= k < |name| :: !(IsAlphanumeric(name[k]) || name[k] == '-' || name[k] == ':')
        then Err(InvalidStructure)
        else Ok(TagName(Some(LowerCase(name)), closing, selfClosing))
  }

  /** The stack of open elements after a tag. */
  function AfterTag(stack: seq<string>, tag: TagName): Result<seq<string>, DocumentError> {
    match tag.name
    case None => Ok(stack)
    case Some(name) =>
      if tag.closing then
        if stack != [] && stack[|stack| - 1] == name then Ok(stack[..|stack| - 1]) else Err(InvalidStructure)
      else if !tag.selfClosing && !IsVoidTag(name) then Ok(stack + [name])
      else Ok(stack)
  }

  predicate MatchesIgnoreCase(s: string, p: string, at: nat) {
    at + |p| <= |s| && forall k | 0 <= k < |p| :: ToLower(s[at + k]) == ToLower(p[k])
  }

  function FindIgnoreCase(s: string, p: string, from: nat): (found: Option<nat>)
    ensures found.Some? ==> from <= found.value && MatchesIgnoreCase(s, p, found.value)
    ensures found.Some? ==> forall at :: from <= at < found.value ==> !MatchesIgnoreCase(s, p, at)
    ensures found.None? ==> forall at: nat :: from <= at ==> !MatchesIgnoreCase(s, p, at)
    decreases |s| - from
  {
    if from + |p| > |s| then None
    else if MatchesIgnoreCase(s, p, from) then Some(from)
    else FindIgnoreCase(s, p, from + 1)
  }

  /** What the scanner takes from the front of `s`. */
  datatype Head = Head(length: nat, translatable: bool, stack: seq<string>)

  predicate InRawText(stack: seq<string>) {
    stack != [] && IsRawTag(stack[|stack| - 1])
  }

  function RawClose(stack: seq<string>): string
    requires InRawText(stack)
  {
    "</" + stack[|stack| - 1]
  }

  predicate HasRawTag(stack: seq<string>) {
    exists k | 0 <= k < |stack| :: IsRawTag(stack[k])
  }

  function TagOrComment(s: string, stack: seq<string>): (head: Result<Head, DocumentError>)
    requires s != "" && s[0] == '<'
    ensures head.Ok? ==> 0 < head.value.length <= |s| && !head.value.translatable
  {
    if StartsWith(s, "<!--") then
      match Find(s, "-->", 4)
      case None => Err(InvalidStructure)
      case Some(at) => Ok(Head(at + 3, false, stack))
    else
      match TagEnd(s, 1, None)
      case None => Err(InvalidStructure)
      case Some(end) =>
        match ParseTagName(s[..end])
        case Err(e) => Err(e)
        case Ok(tag) =>
          match AfterTag(stack, tag)
          case Err(e) => Err(e)
          case Ok(after) => Ok(Head(end, false, after))
  }

  function TextRun(s: string, stack: seq<string>): (head: Head)
    requires s != "" && s[0] != '<'
    ensures 0 < head.length <= |s|
    ensures forall k :: 0 <= k < head.length ==> s[k] != '<'
    ensures head.length == |s| || s[head.length] == '<'
  {
    var end := match IndexOf(s, '<', 0) case Some(at) => at case None => |s|;
    Head(end, !HasRawTag(stack) && !IsBlankText(s[..end]), stack)
  }

  function First(s: string, stack: seq<string>): (head: Result<Head, DocumentError>)
    requires s != ""
    ensures head.Ok? ==> 0 < head.value.length <= |s|
  {
    if InRawText(stack) && FindIgnoreCase(s, RawClose(stack), 0).None? then Err(InvalidStructure)
    else if InRawText(stack) && FindIgnoreCase(s, RawClose(stack), 0).value > 0 then
      Ok(Head(FindIgnoreCase(s, RawClose(stack), 0).value, false, stack))
    else if s[0] == '<' then TagOrComment(s, stack)
    else Ok(TextRun(s, stack))
  }

  /** The limit is only checked behind a text run, when `count` tokens exist. */
  predicate TooMany(s: string, stack: seq<string>, count: nat)
    requires s != ""
  {
    !InRawText(stack) && s[0] != '<' && count > MAX_SEGMENTS
  }

  /** The tokens of `s`, `count` tokens and the open elements of `stack` lying before it. */
  function ParseFrom(s: string, stack: seq<string>, count: nat): (pieces: Result<seq<Piece>, DocumentError>)
    decreases |s|
  {
    if s == "" then if stack == [] then Ok([]) else Err(InvalidStructure)
    else
      match First(s, stack)
      case Err(e) => Err(e)
      case Ok(head) =>
        if TooMany(s, stack, count + 1) then Err(InvalidStructure)
        else
          match ParseFrom(s[head.length..], head.stack, count + 1)
          case Err(e) => Err(e)
          case Ok(rest) => Ok([Piece(s[..head.length], head.translatable)] + rest)
  }

  function Parse(text: string): Result<seq<Piece>, DocumentError> {
    if text == "" then Err(InvalidStructure) else ParseFrom(text, [], 0)
  }

  datatype HtmlToken = HtmlToken(start: nat, end: nat, translatable: bool)

  predicate Tiles(tokens: seq<HtmlToken>, length: nat) {
    if tokens == [] then length == 0
    else
      var last := tokens[|tokens| - 1];
      last.start < last.end == length && Tiles(tokens[..|tokens| - 1], last.start)
  }

  /** The slices that the tokens name. */
  function Slices(text: string, tokens: seq<HtmlToken>, length: nat): (pieces: seq<Piece>)
    requires length <= |text| && Tiles(tokens, length)
    ensures |pieces| == |tokens|
  {
    if tokens == [] then []
    else
      var last := tokens[|tokens| - 1];
      Slices(text, tokens[..|tokens| - 1], last.start) + [Piece(text[last.start..last.end], last.translatable)]
  }

  function After(done: seq<Piece>, rest: Result<seq<Piece>, DocumentError>): Result<seq<Piece>, DocumentError> {
    if rest.Ok? then Ok(done + rest.value) else rest
  }

  /** One turn of the scanner's loop. */
  lemma {:induction false} ScanStep(text: string, tokens: seq<HtmlToken>, cursor: nat, stack: seq<string>, head: Head, token: HtmlToken)
    requires cursor < |text| && Tiles(tokens, cursor)
    requires First(text[cursor..], stack) == Ok(head)
    requires token == HtmlToken(cursor, cursor + head.length, head.translatable)
    ensures token.end <= |text| && Tiles(tokens + [token], token.end)
    ensures After(Slices(text, tokens, cursor), ParseFrom(text[cursor..], stack, |tokens|)) ==
              if TooMany(text[cursor..], stack, |tokens| + 1) then Err(InvalidStructure)
              else After(Slices(text, tokens + [token], token.end), ParseFrom(text[token.end..], head.stack, |tokens| + 1))
  {
    hide First, TooMany;
    var s := text[cursor..];
    assert (tokens + [token])[..|tokens|] == tokens;
    assert s[head.length..] == text[token.end..] && s[..head.length] == text[cursor..token.end];
    var rest := ParseFrom(text[token.end..], head.stack, |tokens| + 1);
    if !TooMany(s, stack, |tokens| + 1) && rest.Ok? {
      assert Slices(text, tokens, cursor) + ([Piece(text[cursor..token.end], token.translatable)] + rest.value) ==
             Slices(text, tokens + [token], token.end) + rest.value;
    }
  }

  lemma ScanStart(text: string)
    ensures Tiles([], 0)
    ensures Parse(text) ==
              if text == "" then Err(InvalidStructure) else After(Slices(text, [], 0), ParseFrom(text[0..], [], 0))
  {
    hide ParseFrom;
    assert text[0..] == text;
    var rest := ParseFrom(text, [], 0);
    assert rest.Ok? ==> [] + rest.value == rest.value;
  }

  lemma ScanEnd(text: string, tokens: seq<HtmlToken>, stack: seq<string>)
    requires Tiles(tokens, |text|)
    ensures After(Slices(text, tokens, |text|), ParseFrom(text[|text|..], stack, |tokens|)) ==
              if stack == [] then Ok(Slices(text, tokens, |text|)) else Err(InvalidStructure)
  {
    assert text[|text|..] == "";
    assert Slices(text, tokens, |text|) + [] == Slices(text, tokens, |text|);
  }

  lemma ScanFails(text: string, tokens: seq<HtmlToken>, cursor: nat, stack: seq<string>)
    requires cursor < |text| && Tiles(tokens, cursor) && First(text[cursor..], stack).Err?
    ensures After(Slices(text, tokens, cursor), ParseFrom(text[cursor..], stack, |tokens|)).Err?
  {
    hide First;
  }

  lemma RawRun(s: string, stack: seq<string>)
    requires s != "" && InRawText(stack)
    ensures FindIgnoreCase(s, RawClose(stack), 0) == Some(0) ==> s[0] == '<'
    ensures var close := FindIgnoreCase(s, RawClose(stack), 0);
            First(s, stack) ==
              if close.None? then Err(InvalidStructure)
              else if close.value > 0 then Ok(Head(close.value, false, stack))
              else TagOrComment(s, stack)
  {
    hide TagOrComment;
    if FindIgnoreCase(s, RawClose(stack), 0) == Some(0) {
      assert ToLower(s[0 + 0]) == ToLower(RawClose(stack)[0]) == '<';
    }
  }

  lemma Markup(s: string, stack: seq<string>)
    requires s != "" && s[0] == '<' && !InRawText(stack)
    ensures First(s, stack) == TagOrComment(s, stack)
  {
  }

  lemma VisibleRun(text: string, cursor: nat, stack: seq<string>, end: nat)
    requires cursor < end <= |text| && !InRawText(stack)
    requires forall k | cursor <= k < end :: text[k] != '<'
    requires end == |text| || text[end] == '<'
    ensures First(text[cursor..], stack) ==
              Ok(Head(end - cursor, !HasRawTag(stack) && !IsBlankText(text[cursor..end]), stack))
  {
    hide HasRawTag, IsBlankText;
    var rest := text[cursor..];
    var length := TextRun(rest, stack).length;
    assert forall k | 0 <= k < |rest| :: rest[k] == text[cursor + k];
    assert length == end - cursor;
    assert rest[..length] == text[cursor..end];
  }

  /** The token at the cursor, by the branches of the scanner. */
  method NextToken(text: string, cursor: nat, stack: seq<string>) returns (head: Result<Head, DocumentError>)
    requires cursor < |text|
    ensures head == First(text[cursor..], stack)
  {
    hide First, TagOrComment, TextRun, HasRawTag, IsBlankText, MatchesIgnoreCase;
    var rest := text[cursor..];
    if InRawText(stack) {
      var close := FindIgnoreCase(rest, RawClose(stack), 0);
      RawRun(rest, stack);
      if close.None? {
        return Err(InvalidStructure);
      }
      if close.value > 0 {
        return Ok(Head(close.value, false, stack));
      }
    } else if text[cursor] == '<' {
      Markup(rest, stack);
    }
    if text[cursor] == '<' {
      head := TagOrComment(rest, stack);
      return;
    }
    var found := IndexOf(text, '<', cursor);
    var end := if found.Some? then found.value else |text|;
    VisibleRun(text, cursor, stack, end);
    return Ok(Head(end - cursor, !HasRawTag(stack) && !IsBlankText(text[cursor..end]), stack));
  }

  /** The scanner with its cursor and its stack of open elements. */
  method ParseTokens(text: string) returns (result: Result<seq<HtmlToken>, DocumentError>)
    ensures result.Ok? <==> Parse(text).Ok?
    ensures result.Ok? ==> Tiles(result.value, |text|) && Parse(text) == Ok(Slices(text, result.value, |text|))
  {
    hide Tiles, Slices, Parse, ParseFrom, First;
    ScanStart(text);
    if text == "" {
      return Err(InvalidStructure);
    }
    var tokens: seq<HtmlToken> := [];
    var stack: seq<string> := [];
    var cursor: nat := 0;
    ghost var target := Parse(text);
    while cursor < |text|
      invariant cursor <= |text| && Tiles(tokens, cursor)
      invariant target == After(Slices(text, tokens, cursor), ParseFrom(text[cursor..], stack, |tokens|))
      decreases |text| - cursor
    {
      var head := NextToken(text, cursor, stack);
      if head.Err? {
        ScanFails(text, tokens, cursor, stack);
        return Err(InvalidStructure);
      }
      var token := HtmlToken(cursor, cursor + head.value.length, head.value.translatable);
      ScanStep(text, tokens, cursor, stack, head.value, token);
      if TooMany(text[cursor..], stack, |tokens| + 1) {
        return Err(InvalidStructure);
      }
      tokens, cursor, stack := tokens + [token], token.end, head.value.stack;
    }
    ScanEnd(text, tokens, stack);
    if stack != [] {
      return Err(InvalidStructure);
    }
    return Ok(tokens);
  }
}
