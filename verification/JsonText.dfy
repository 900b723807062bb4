/** JSON string literals (RFC 8259, section 7) and primitives (section 6) as the library reads and writes them. */
module JsonText {
  import opened Texts
  import opened Strings

  predicate IsHex(c: char) {
    '0' <= c <= '9' || 'a' <= c <= 'f' || 'A' <= c <= 'F'
  }

  function HexDigit(c: char): (v: nat)
    requires IsHex(c)
    ensures v < 16
  {
    if '0' <= c <= '9' then c as int - 48 else if 'a' <= c <= 'f' then c as int - 87 else c as int - 55
  }

  /** The number of four hexadecimal digits. */
  function HexUnit(s: string): Option<nat> {
    if |s| >= 4 && IsHex(s[0]) && IsHex(s[1]) && IsHex(s[2]) && IsHex(s[3]) then
      Some(HexDigit(s[0]) * 4096 + HexDigit(s[1]) * 256 + HexDigit(s[2]) * 16 + HexDigit(s[3]))
    else None
  }

  /** A character and the length of its escape. */
  datatype Escaped = Escaped(c: char, length: nat)

  /** The character that an escape behind a backslash stands for; surrogates count in pairs only. */
  function EscapeAt(s: string): (r: Option<Escaped>)
    ensures r.Some? ==> 0 < r.value.length <= |s|
  {
    if s == "" then None
    else
      match s[0]
      case '"' => Some(Escaped('"', 1))
      case '\\' => Some(Escaped('\\', 1))
      case '/' => Some(Escaped('/', 1))
      case 'b' => Some(Escaped('\U{8}', 1))
      case 'f' => Some(Escaped('\U{c}', 1))
      case 'n' => Some(Escaped('\n', 1))
      case 'r' => Some(Escaped('\r', 1))
      case 't' => Some(Escaped('\t', 1))
      case 'u' => UnicodeAt(s)
      case _ => None
  }

  function UnicodeAt(s: string): (r: Option<Escaped>)
    requires s != ""
    ensures r.Some? ==> 0 < r.value.length <= |s|
  {
    match HexUnit(s[1..])
    case None => None
    case Some(unit) =>
      if unit < 0xD800 || 0xDFFF < unit < 0x1_0000 then Some(Escaped(unit as char, 5))
      else if 0xD800 <= unit < 0xDC00 && |s| >= 11 && s[5] == '\\' && s[6] == 'u' then
        match HexUnit(s[7..])
        case None => None
        case Some(low) =>
          if 0xDC00 <= low < 0xE000 then
            Some(Escaped((0x1_0000 + (unit - 0xD800) * 1024 + (low - 0xDC00)) as char, 11))
          else None
      else None
  }

  /** The text of the inside of a literal. */
  function DecodeInner(s: string): Option<string>
    decreases |s|
  {
    if s == "" then Some("")
    else if s[0] == '"' || s[0] < ' ' then None
    else if s[0] == '\\' then
      match EscapeAt(s[1..])
      case None => None
      case Some(e) => Front(e.c, DecodeInner(s[1 + e.length..]))
    else Front(s[0], DecodeInner(s[1..]))
  }

  function Front(c: char, rest: Option<string>): Option<string> {
    if rest.Some? then Some([c] + rest.value) else None
  }

  function Decode(raw: string): Option<string> {
    if |raw| < 2 || raw[0] != '"' || raw[|raw| - 1] != '"' then None else DecodeInner(raw[1..|raw| - 1])
  }

  function LowHex(v: nat): char
    requires v < 16
  {
    if v < 10 then (v + 48) as char else (v + 87) as char
  }

  function EncodeChar(c: char): (e: string)
    ensures e != "" && forall k | 0 <= k < |e| :: e[k] >= ' '
  {
    if c == '"' then "\\\""
    else if c == '\\' then "\\\\"
    else if c == '\U{8}' then "\\b"
    else if c == '\U{c}' then "\\f"
    else if c == '\n' then "\\n"
    else if c == '\r' then "\\r"
    else if c == '\t' then "\\t"
    else if c < ' ' then "\\u00" + [LowHex(c as int / 16), LowHex(c as int % 16)]
    else [c]
  }

  function EncodeInner(t: string): string {
    if t == "" then "" else EncodeChar(t[0]) + EncodeInner(t[1..])
  }

  function Encode(t: string): string {
    "\"" + EncodeInner(t) + "\""
  }

  /** Where the scanner ends the inside of a literal: at the first quote that no backslash precedes. */
  function InnerLength(s: string): (n: Option<nat>)
    ensures n.Some? ==> n.value < |s| && s[n.value] == '"'
    decreases |s|
  {
    if s == "" then None
    else if s[0] == '"' then Some(0)
    else if s[0] == '\\' then
      if |s| < 2 then None else match InnerLength(s[2..]) case None => None case Some(n) => Some(n + 2)
    else if s[0] < ' ' then None
    else match InnerLength(s[1..]) case None => None case Some(n) => Some(n + 1)
  }

  // Encoding is undone by decoding

  lemma EncodedCharReads(c: char, rest: string)
    ensures DecodeInner(EncodeChar(c) + rest) == Front(c, DecodeInner(rest))
  {
    hide UnicodeAt;
    var e := EncodeChar(c);
    var s := e + rest;
    assert s[0] == e[0];
    if e == [c] {
      assert s[1..] == rest;
    } else {
      assert s[1] == e[1];
      assert s[1..] == e[1..] + rest;
      if |e| == 2 {
        assert s[2..] == rest;
      } else {
        ControlCharReads(c, rest);
        assert s[1..][5..] == rest && s[6..] == rest;
      }
    }
  }

  lemma ControlCharReads(c: char, rest: string)
    requires |EncodeChar(c)| > 2
    ensures UnicodeAt(EncodeChar(c)[1..] + rest) == Some(Escaped(c, 5))
  {
    var v := c as int;
    var s := EncodeChar(c)[1..] + rest;
    var d := s[1..];
    assert c < ' ' && EncodeChar(c) == "\\u00" + [LowHex(v / 16), LowHex(v % 16)];
    assert d == ['0', '0', LowHex(v / 16), LowHex(v % 16)] + rest;
    assert d[0] == '0' && d[1] == '0' && d[2] == LowHex(v / 16) && d[3] == LowHex(v % 16);
    assert HexDigit(LowHex(v / 16)) == v / 16 && HexDigit(LowHex(v % 16)) == v % 16;
  }

  lemma {:induction false} EncodedInnerReads(t: string)
    ensures DecodeInner(EncodeInner(t)) == Some(t)
  {
    hide DecodeInner, EncodeChar;
    if t == "" {
      EmptyReads();
    } else {
      EncodedCharReads(t[0], EncodeInner(t[1..]));
      EncodedInnerReads(t[1..]);
      assert [t[0]] + t[1..] == t;
    }
  }

  lemma EmptyReads()
    ensures DecodeInner("") == Some("")
  {
  }

  /** A translation is decoded as it was given. */
  lemma EncodedDecodes(t: string)
    ensures Decode(Encode(t)) == Some(t)
  {
    var raw := Encode(t);
    assert raw[1..|raw| - 1] == EncodeInner(t);
    EncodedInnerReads(t);
  }

  lemma EncodedCharSpans(c: char, rest: string)
    ensures InnerLength(EncodeChar(c) + rest) ==
              match InnerLength(rest) case None => None case Some(n) => Some(|EncodeChar(c)| + n)
  {
    var e := EncodeChar(c);
    var s := e + rest;
    assert s[0] == e[0];
    if |e| == 1 {
      assert s[1..] == rest;
    } else if |e| == 2 {
      assert s[2..] == rest;
    } else {
      assert s[2..] == e[2..] + rest;
      PlainSpans(e[2..], rest);
    }
  }

  lemma {:induction false} PlainSpans(p: string, rest: string)
    requires forall k | 0 <= k < |p| :: p[k] >= ' ' && p[k] != '"' && p[k] != '\\'
    ensures InnerLength(p + rest) == match InnerLength(rest) case None => None case Some(n) => Some(|p| + n)
  {
    if p == "" {
      assert p + rest == rest;
    } else {
      PlainSpans(p[1..], rest);
      assert (p + rest)[1..] == p[1..] + rest;
    }
  }

  /** The scanner finds the end of an encoded translation, whatever follows. */
  lemma {:induction false} EncodedSpans(t: string, rest: string)
    ensures InnerLength(EncodeInner(t) + "\"" + rest) == Some(|EncodeInner(t)|)
  {
    hide EncodeChar;
    var s := EncodeInner(t) + "\"" + rest;
    if t == "" {
      assert s[0] == '"';
    } else {
      var more := EncodeInner(t[1..]) + "\"" + rest;
      assert s == EncodeChar(t[0]) + more;
      EncodedSpans(t[1..], rest);
      EncodedCharSpans(t[0], more);
    }
  }

  /** The end of a literal does not depend on what follows it. */
  lemma {:induction false} InnerIsLocal(s: string, other: string)
    requires InnerLength(s).Some?
    requires var end := InnerLength(s).value + 1; end <= |other| && other[..end] == s[..end]
    ensures InnerLength(other) == InnerLength(s)
    decreases |s|
  {
    var end := InnerLength(s).value + 1;
    assert other[0] == other[..end][0] == s[..end][0] == s[0];
    if s[0] == '\\' {
      assert other[2..][..end - 2] == other[..end][2..] == s[..end][2..] == s[2..][..end - 2];
      InnerIsLocal(s[2..], other[2..]);
    } else if s[0] != '"' {
      assert other[1..][..end - 1] == other[..end][1..] == s[..end][1..] == s[1..][..end - 1];
      InnerIsLocal(s[1..], other[1..]);
    }
  }

  // Primitives

  predicate EndsPrimitive(c: char) {
    c == ',' || c == ']' || c == '}' || c == ' ' || c == '\n' || c == '\r' || c == '\t'
  }

  function PrimitiveLength(s: string): (n: nat)
    ensures n <= |s| && (forall k | 0 <= k < n :: !EndsPrimitive(s[k])) && (n < |s| ==> EndsPrimitive(s[n]))
  {
    if s == "" || EndsPrimitive(s[0]) then 0 else 1 + PrimitiveLength(s[1..])
  }

  function Digits(s: string): (n: nat)
    ensures n <= |s|
  {
    if s == "" || !IsDecimalDigit(s[0]) then 0 else 1 + Digits(s[1..])
  }

  /** An exponent, or nothing. */
  predicate IsExponent(s: string) {
    s == "" ||
    ((s[0] == 'e' || s[0] == 'E') &&
     var d := if |s| >= 2 && (s[1] == '+' || s[1] == '-') then s[2..] else s[1..];
     d != "" && Digits(d) == |d|)
  }

  predicate IsNumber(s: string) {
    var body := if s != "" && s[0] == '-' then s[1..] else s;
    var whole := Digits(body);
    && whole > 0 && (body[0] == '0' ==> whole == 1)
    && var rest := body[whole..];
       if rest != "" && rest[0] == '.' then
         var fraction := Digits(rest[1..]);
         fraction > 0 && IsExponent(rest[1 + fraction..])
       else IsExponent(rest)
  }

  /** `fits` is the library's test that a number is in its range. */
  predicate IsPrimitive(s: string, fits: string -> bool) {
    s == "true" || s == "false" || s == "null" || (IsNumber(s) && fits(s))
  }
}
