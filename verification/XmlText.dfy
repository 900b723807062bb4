/** Character data of XML: escaping of translations, and reading of the five entities and character references. */
module XmlText {
  import opened Texts

  function EscapeChar(c: char): (e: string)
    ensures e != "" && '<' !in e
  {
    match c
    case '<' => "&lt;"
    case '>' => "&gt;"
    case '&' => "&amp;"
    case '\'' => "&apos;"
    case '"' => "&quot;"
    case _ => [c]
  }

  function Escape(t: string): string {
    if t == "" then "" else EscapeChar(t[0]) + Escape(t[1..])
  }

  /** The position of the first `&` or `;`. */
  function Delimiter(s: string): (at: Option<nat>)
    ensures at.Some? ==> at.value < |s|
  {
    if s == "" then None
    else if s[0] == '&' || s[0] == ';' then Some(0)
    else match Delimiter(s[1..]) case None => None case Some(k) => Some(k + 1)
  }

  function DigitOf(c: char): Option<nat> {
    if '0' <= c <= '9' then Some(c as int - 48)
    else if 'a' <= c <= 'f' then Some(c as int - 87)
    else if 'A' <= c <= 'F' then Some(c as int - 55)
    else None
  }

  function Number(s: string, base: nat): Option<nat> {
    if s == "" then Some(0)
    else
      match (Number(s[..|s| - 1], base), DigitOf(s[|s| - 1]))
      case (Some(high), Some(low)) => if low < base then Some(high * base + low) else None
      case _ => None
  }

  function CharacterReference(s: string): Option<char> {
    var value := if s == "" then None
                 else if s[0] == 'x' then (if |s| == 1 then None else Number(s[1..], 16))
                 else Number(s, 10);
    match value
    case None => None
    case Some(v) => if 0 < v < 0xD800 || 0xDFFF < v < 0x11_0000 then Some(v as char) else None
  }

  function Entity(name: string): Option<char> {
    if name == "lt" then Some('<')
    else if name == "gt" then Some('>')
    else if name == "amp" then Some('&')
    else if name == "apos" then Some('\'')
    else if name == "quot" then Some('"')
    else if name != "" && name[0] == '#' then CharacterReference(name[1..])
    else None
  }

  function Front(c: char, rest: Option<string>): Option<string> {
    if rest.Some? then Some([c] + rest.value) else None
  }

  /** The text that character data stands for. */
  function Unescape(s: string): Option<string>
    decreases |s|
  {
    if s == "" then Some("")
    else if s[0] != '&' then Front(s[0], Unescape(s[1..]))
    else
      match Delimiter(s[1..])
      case None => None
      case Some(k) =>
        if s[1 + k] == '&' then None
        else
          match Entity(s[1..1 + k])
          case None => None
          case Some(c) => Front(c, Unescape(s[k + 2..]))
  }

  lemma {:induction false} NameEnds(name: string, rest: string)
    requires '&' !in name && ';' !in name
    ensures Delimiter(name + ";" + rest) == Some(|name|)
  {
    var s := name + ";" + rest;
    if name == "" {
      assert s[0] == ';';
    } else {
      NameEnds(name[1..], rest);
      assert s[1..] == name[1..] + ";" + rest;
    }
  }

  lemma EntityReads(name: string, c: char, rest: string)
    requires '&' !in name && ';' !in name && Entity(name) == Some(c)
    ensures Unescape("&" + name + ";" + rest) == Front(c, Unescape(rest))
  {
    hide Entity, Delimiter;
    var s := "&" + name + ";" + rest;
    assert s[1..] == name + ";" + rest;
    NameEnds(name, rest);
    assert s[1 + |name|] == ';' && s[1..1 + |name|] == name && s[|name| + 2..] == rest;
  }

  lemma EscapedCharReads(c: char, rest: string)
    ensures Unescape(EscapeChar(c) + rest) == Front(c, Unescape(rest))
  {
    hide Unescape, Delimiter;
    match c
    case '<' =>
      assert EscapeChar(c) == "&" + "lt" + ";";
      EntityReads("lt", c, rest);
    case '>' =>
      assert EscapeChar(c) == "&" + "gt" + ";";
      EntityReads("gt", c, rest);
    case '&' =>
      assert EscapeChar(c) == "&" + "amp" + ";";
      EntityReads("amp", c, rest);
    case '\'' =>
      assert EscapeChar(c) == "&" + "apos" + ";";
      EntityReads("apos", c, rest);
    case '"' =>
      assert EscapeChar(c) == "&" + "quot" + ";";
      EntityReads("quot", c, rest);
    case _ => PlainReads(c, rest);
  }

  lemma PlainReads(c: char, rest: string)
    requires c != '&'
    ensures Unescape([c] + rest) == Front(c, Unescape(rest))
  {
    assert ([c] + rest)[1..] == rest;
  }

  /** Escaped text has no markup, is read back as it was, and holds a NUL only when the text does. */
  lemma {:induction false} EscapedReads(t: string)
    ensures Unescape(Escape(t)) == Some(t)
    ensures '<' !in Escape(t)
    ensures '\0' in Escape(t) <==> '\0' in t
    ensures Escape(t) == "" <==> t == ""
  {
    hide Unescape;
    if t == "" {
      NothingReads();
    } else {
      EscapedReads(t[1..]);
      EscapedCharReads(t[0], Escape(t[1..]));
      assert t == [t[0]] + t[1..];
      assert '\0' in EscapeChar(t[0]) <==> t[0] == '\0';
    }
  }

  lemma NothingReads()
    ensures Unescape("") == Some("")
  {
  }
}
