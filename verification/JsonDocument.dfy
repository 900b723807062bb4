/** The recursive JSON parser: string tokens with their paths, and the text between them. */
module JsonDocument {
  import opened Texts
  import opened JsonText

  const MAX_TOKENS: nat := 5_000

  datatype Step = Key(name: string) | Index(index: nat)

  type Path = seq<Step>

  /** Text between string literals, or a literal with its path. */
  datatype Piece = Gap(raw: string) | Str(raw: string, path: Path, isKey: bool)

  /** What a rule of the grammar took from the front. */
  datatype Parsed = Parsed(pieces: seq<Piece>, length: nat)

  predicate IsBlank(c: char) {
    c == ' ' || c == '\n' || c == '\r' || c == '\t'
  }

  function Blanks(s: string): (n: nat)
    ensures n <= |s| && (forall k | 0 <= k < n :: IsBlank(s[k])) && (n < |s| ==> !IsBlank(s[n]))
  {
    if s == "" || !IsBlank(s[0]) then 0 else 1 + Blanks(s[1..])
  }

  function Join(a: Parsed, b: Option<Parsed>): Option<Parsed> {
    if b.Some? then Some(Parsed(a.pieces + b.value.pieces, a.length + b.value.length)) else None
  }

  function Literals(pieces: seq<Piece>): nat {
    if pieces == [] then 0 else (if pieces[0].Str? then 1 else 0) + Literals(pieces[1..])
  }

  function Symbol(s: string, c: char): (p: Option<Parsed>)
    ensures p.Some? ==> 0 < p.value.length <= |s|
  {
    var w := Blanks(s);
    if w < |s| && s[w] == c then Some(Parsed([Gap(s[..w + 1])], w + 1)) else None
  }

  function StringToken(s: string, path: Path, isKey: bool, count: nat): (p: Option<Parsed>)
    ensures p.Some? ==> 1 < p.value.length <= |s| && |p.value.pieces| == 2 && p.value.pieces[1].Str?
                        && Decode(p.value.pieces[1].raw).Some?
  {
    var w := Blanks(s);
    if w == |s| || s[w] != '"' then None
    else
      match InnerLength(s[w + 1..])
      case None => None
      case Some(n) =>
        var raw := s[w..w + n + 2];
        if count >= MAX_TOKENS || Decode(raw).None? then None
        else Some(Parsed([Gap(s[..w]), Str(raw, path, isKey)], w + n + 2))
  }

  predicate StartsPrimitive(c: char) {
    c == 't' || c == 'f' || c == 'n' || c == '-' || '0' <= c <= '9'
  }

  function Primitive(s: string, fits: string -> bool): (p: Option<Parsed>)
    ensures p.Some? ==> 0 < p.value.length <= |s|
  {
    var w := Blanks(s);
    var n := PrimitiveLength(s[w..]);
    if n > 0 && IsPrimitive(s[w..w + n], fits) then Some(Parsed([Gap(s[..w + n])], w + n)) else None
  }

  function Value(s: string, path: Path, count: nat, fits: string -> bool): (p: Option<Parsed>)
    ensures p.Some? ==> 0 < p.value.length <= |s|
    decreases |s|, 1
  {
    var w := Blanks(s);
    if w == |s| then None
    else if s[w] == '{' then
      var open := Symbol(s, '{').value;
      var rest := s[open.length..];
      Join(open, if Symbol(rest, '}').Some? then Symbol(rest, '}') else Members(rest, path, count, fits))
    else if s[w] == '[' then
      var open := Symbol(s, '[').value;
      var rest := s[open.length..];
      Join(open, if Symbol(rest, ']').Some? then Symbol(rest, ']') else Items(rest, path, 0, count, fits))
    else if s[w] == '"' then StringToken(s, path, false, count)
    else if StartsPrimitive(s[w]) then Primitive(s, fits)
    else None
  }

  /** The members of an object up to its closing brace. */
  function Members(s: string, path: Path, count: nat, fits: string -> bool): (p: Option<Parsed>)
    ensures p.Some? ==> 0 < p.value.length <= |s|
    decreases |s|, 0
  {
    match StringToken(s, path, true, count)
    case None => None
    case Some(key) =>
      var name := Decode(key.pieces[1].raw).value;
      var s1 := s[key.length..];
      match Symbol(s1, ':')
      case None => None
      case Some(colon) =>
        var s2 := s1[colon.length..];
        match Value(s2, path + [Key(name)], count + 1, fits)
        case None => None
        case Some(value) =>
          Join(key, Join(colon, Join(value, MoreMembers(s2[value.length..], path, count + 1 + Literals(value.pieces), fits))))
  }

  function MoreMembers(s: string, path: Path, count: nat, fits: string -> bool): (p: Option<Parsed>)
    ensures p.Some? ==> 0 < p.value.length <= |s|
    decreases |s|, 2
  {
    if Symbol(s, '}').Some? then Symbol(s, '}')
    else
      match Symbol(s, ',')
      case None => None
      case Some(comma) => Join(comma, Members(s[comma.length..], path, count, fits))
  }

  /** The items of an array from number `i` up to its closing bracket. */
  function Items(s: string, path: Path, i: nat, count: nat, fits: string -> bool): (p: Option<Parsed>)
    ensures p.Some? ==> 0 < p.value.length <= |s|
    decreases |s|, 2
  {
    match Value(s, path + [Index(i)], count, fits)
    case None => None
    case Some(value) => Join(value, MoreItems(s[value.length..], path, i + 1, count + Literals(value.pieces), fits))
  }

  function MoreItems(s: string, path: Path, i: nat, count: nat, fits: string -> bool): (p: Option<Parsed>)
    ensures p.Some? ==> 0 < p.value.length <= |s|
    decreases |s|, 1
  {
    if Symbol(s, ']').Some? then Symbol(s, ']')
    else
      match Symbol(s, ',')
      case None => None
      case Some(comma) => Join(comma, Items(s[comma.length..], path, i, count, fits))
  }

  /** One value with white space around it. */
  function Parse(text: string, fits: string -> bool): Option<seq<Piece>> {
    match Value(text, [], 0, fits)
    case None => None
    case Some(value) =>
      var rest := text[value.length..];
      if Blanks(rest) == |rest| then Some(value.pieces + [Gap(rest)]) else None
  }
}
