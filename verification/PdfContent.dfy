/** Text spans of a PDF content stream (ISO 32000-1, section 7.3.4.2) and their replacement. */
module PdfContent {
  import opened Texts

  const OPEN: Byte := 40
  const CLOSE: Byte := 41
  const BACKSLASH: Byte := 92
  const LESS: Byte := 60
  const GREATER: Byte := 62
  const LF: Byte := 10
  const CR: Byte := 13
  const MAX_OPERATORS: nat := 100_000

  predicate IsSpace(b: Byte) {
    b == 32 || b == 9 || b == CR || b == LF || b == 12 || b == 0
  }

  predicate IsOctal(b: Byte) {
    48 <= b < 56
  }

  /** The bytes that a prefix stands for and the length of that prefix. */
  datatype Reading = Reading(text: Text, length: nat)

  function OctalLength(s: Text): (n: nat)
    requires s != [] && IsOctal(s[0])
    ensures 1 <= n <= 3 && n <= |s| && IsOctal(s[0]) && (n >= 2 ==> IsOctal(s[1])) && (n >= 3 ==> IsOctal(s[2]))
  {
    if |s| >= 2 && IsOctal(s[1]) then if |s| >= 3 && IsOctal(s[2]) then 3 else 2 else 1
  }

  function OctalValue(s: Text): (v: int)
    requires forall k | 0 <= k < |s| :: IsOctal(s[k])
    ensures v >= 0
  {
    if s == [] then 0
    else
      assert IsOctal(s[|s| - 1]);
      OctalValue(s[..|s| - 1]) * 8 + (s[|s| - 1] as int - 48)
  }

  /** What stands behind a backslash. */
  function EscapeAt(s: Text): (r: Option<Reading>)
    ensures r.Some? ==> 0 < r.value.length <= |s|
  {
    if s == [] then None
    else
      var c: int := s[0];
      if c == 110 then Some(Reading([LF], 1))
      else if c == 114 then Some(Reading([CR], 1))
      else if c == 116 then Some(Reading([9], 1))
      else if c == 98 then Some(Reading([8], 1))
      else if c == 102 then Some(Reading([12], 1))
      else if c == 10 then Some(Reading([], 1))
      else if c == 13 then Some(Reading([], if |s| >= 2 && s[1] == LF then 2 else 1))
      else if IsOctal(s[0]) then
        var n := OctalLength(s);
        if OctalValue(s[..n]) < 256 then Some(Reading([OctalValue(s[..n])], n)) else None
      else Some(Reading([s[0]], 1))
  }

  function Then(first: Text, length: nat, rest: Option<Reading>): Option<Reading> {
    if rest.Some? then Some(Reading(first + rest.value.text, length + rest.value.length)) else None
  }

  /** The rest of a literal string, `depth` parentheses being open. */
  function LiteralTail(s: Text, depth: nat): (r: Option<Reading>)
    requires depth > 0
    ensures r.Some? ==> 0 < r.value.length <= |s|
    decreases |s|
  {
    if s == [] then None
    else if s[0] == OPEN then Then([OPEN], 1, LiteralTail(s[1..], depth + 1))
    else if s[0] == CLOSE then
      if depth == 1 then Some(Reading([], 1)) else Then([CLOSE], 1, LiteralTail(s[1..], depth - 1))
    else if s[0] == BACKSLASH then
      match EscapeAt(s[1..])
      case None => None
      case Some(e) => Then(e.text, 1 + e.length, LiteralTail(s[1 + e.length..], depth))
    else Then([s[0]], 1, LiteralTail(s[1..], depth))
  }

  function Literal(s: Text): (r: Option<Reading>)
    ensures r.Some? ==> 1 < r.value.length <= |s|
  {
    if s == [] || s[0] != OPEN then None else Then([], 1, LiteralTail(s[1..], 1))
  }

  predicate IsAscii(t: Text) {
    forall k | 0 <= k < |t| :: t[k] < 128
  }

  function EscapeByte(b: Byte): (e: Text)
    ensures e != []
  {
    if b == OPEN || b == CLOSE || b == BACKSLASH then [BACKSLASH, b]
    else if b == LF then [BACKSLASH, 110]
    else if b == CR then [BACKSLASH, 114]
    else [b]
  }

  function Escape(t: Text): Text {
    if t == [] then [] else EscapeByte(t[0]) + Escape(t[1..])
  }

  lemma {:induction false} EscapeJoins(a: Text, b: Byte)
    ensures Escape(a + [b]) == Escape(a) + EscapeByte(b)
  {
    if a == [] {
      assert [] + [b] == [b] && [b][1..] == [];
    } else {
      EscapeJoins(a[1..], b);
      assert (a + [b])[1..] == a[1..] + [b];
    }
  }

  /** The byte loop that escapes a translation; a text that is not ASCII is refused. */
  method PdfEscape(text: Text) returns (result: Option<Text>)
    ensures result == if IsAscii(text) then Some(Escape(text)) else None
  {
    if !IsAscii(text) {
      return None;
    }
    var output: Text := [];
    for k := 0 to |text|
      invariant output == Escape(text[..k])
    {
      EscapeJoins(text[..k], text[k]);
      assert text[..k + 1] == text[..k] + [text[k]];
      output := output + EscapeByte(text[k]);
    }
    assert text[..|text|] == text;
    return Some(output);
  }

  // Tokens of the stream

  function Run(s: Text, p: Byte -> bool): (n: nat)
    ensures n <= |s| && (forall k | 0 <= k < n :: p(s[k])) && (n < |s| ==> !p(s[n]))
  {
    if s == [] || !p(s[0]) then 0 else 1 + Run(s[1..], p)
  }

  predicate IsDigit(b: Byte) {
    48 <= b < 58
  }

  predicate IsNumeric(b: Byte) {
    IsDigit(b) || b == 43 || b == 45 || b == 46
  }

  predicate InOperator(b: Byte) {
    !IsSpace(b) && b != 91 && b != 93 && b != OPEN && b != CLOSE && b != LESS
  }

  /** A decimal number: an optional sign, digits with at most one point, and at least one digit. */
  predicate IsNumber(s: Text) {
    var body := if s != [] && (s[0] == 43 || s[0] == 45) then s[1..] else s;
    var whole := Run(body, IsDigit);
    var rest := body[whole..];
    if rest == [] then whole > 0
    else rest[0] == 46 && Run(rest[1..], IsDigit) == |rest| - 1 && whole + |rest| > 1
  }

  function Find(s: Text, b: Byte): (at: Option<nat>)
    ensures at.Some? ==> at.value < |s| && s[at.value] == b
  {
    if s == [] then None
    else if s[0] == b then Some(0)
    else match Find(s[1..], b) case None => None case Some(k) => Some(k + 1)
  }

  function HexValue(b: Byte): Option<nat> {
    var c: int := b;
    if 48 <= c < 58 then Some(c - 48)
    else if 97 <= c < 103 then Some(c - 87)
    else if 65 <= c < 71 then Some(c - 55)
    else None
  }

  /** The bytes of a hexadecimal string; an odd last digit counts sixteen times. */
  function HexBytes(s: Text, high: Option<nat>): Option<Text>
    requires high.Some? ==> high.value < 16
  {
    if s == [] then Some(if high.Some? then [high.value * 16] else [])
    else if IsSpace(s[0]) then HexBytes(s[1..], high)
    else
      match HexValue(s[0])
      case None => None
      case Some(v) =>
        if high.None? then HexBytes(s[1..], Some(v))
        else
          match HexBytes(s[1..], None)
          case None => None
          case Some(rest) => Some([high.value * 16 + v] + rest)
  }

  /** A literal is followed by one byte that the scanner does not look at. */
  datatype Mode = Mode(inText: bool, operators: nat, skip: bool)

  /** A stretch of the stream; spans carry their text before character decoding. */
  datatype Piece = Other(raw: Text) | Span(raw: Text, text: Text, literal: bool)

  datatype Head = Head(length: nat, span: Option<Text>, literal: bool, mode: Mode)

  function Shown(text: Text, mode: Mode): Option<Text> {
    if mode.inText && text != [] then Some(text) else None
  }

  function AfterOperator(word: Text, mode: Mode): Mode {
    var counted := mode.(operators := mode.operators + 1);
    if word == [66, 84] then counted.(inText := true)
    else if word == [69, 84] then counted.(inText := false)
    else counted
  }

  function HexHead(s: Text, mode: Mode): (head: Option<Head>)
    requires s != []
    ensures head.Some? ==> 0 < head.value.length <= |s|
  {
    match Find(s[1..], GREATER)
    case None => None
    case Some(k) =>
      if !mode.inText then Some(Head(k + 2, None, false, mode))
      else
        match HexBytes(s[1..k + 1], None)
        case None => None
        case Some(text) => Some(Head(k + 2, Shown(text, mode), false, mode))
  }

  /** A number, an operator or a single byte. */
  function WordHead(s: Text, mode: Mode): (head: Option<Head>)
    requires s != []
    ensures head.Some? ==> 0 < head.value.length <= |s|
  {
    var digits, word := Run(s, IsNumeric), Run(s, InOperator);
    if digits > 0 && IsNumber(s[..digits]) then Some(Head(digits, None, false, mode))
    else if word == 0 then Some(Head(1, None, false, mode))
    else if mode.operators >= MAX_OPERATORS then None
    else Some(Head(word, None, false, AfterOperator(s[..word], mode)))
  }

  function First(s: Text, mode: Mode): (head: Option<Head>)
    requires s != []
    ensures head.Some? ==> 0 < head.value.length <= |s|
    ensures head.Some? && head.value.span.Some? ==> head.value.span.value != []
  {
    if mode.skip then Some(Head(1, None, false, mode.(skip := false)))
    else if IsSpace(s[0]) then Some(Head(1, None, false, mode))
    else if s[0] == 37 then
      Some(Head(match Find(s, LF) case None => |s| case Some(k) => k + 1, None, false, mode))
    else if s[0] == OPEN then
      match Literal(s)
      case None => None
      case Some(l) => Some(Head(l.length, Shown(l.text, mode), true, mode.(skip := true)))
    else if s[0] == LESS && !(|s| >= 2 && s[1] == LESS) then HexHead(s, mode)
    else WordHead(s, mode)
  }

  function PieceOf(head: Head, raw: Text): Piece {
    if head.span.Some? then Span(raw, head.span.value, head.literal) else Other(raw)
  }

  function Extract(s: Text, mode: Mode): Option<seq<Piece>>
    decreases |s|
  {
    if s == [] then Some([])
    else
      match First(s, mode)
      case None => None
      case Some(head) =>
        match Extract(s[head.length..], head.mode)
        case None => None
        case Some(rest) => Some([PieceOf(head, s[..head.length])] + rest)
  }

  const START: Mode := Mode(false, 0, false)

  datatype PdfSpan = PdfSpan(start: nat, end: nat, text: Text)

  /** The positions and texts of the spans when the pieces start at `at`. */
  function SpansOf(pieces: seq<Piece>, at: nat): seq<PdfSpan> {
    if pieces == [] then []
    else
      var piece := pieces[0];
      (if piece.Span? then [PdfSpan(at, at + |piece.raw|, piece.text)] else []) + SpansOf(pieces[1..], at + |piece.raw|)
  }

  // The loops

  /** The byte loop over a literal string, with its depth of parentheses. */
  method PdfLiteral(data: Text, start: nat) returns (result: Option<Reading>)
    requires start <= |data|
    ensures result == Literal(data[start..])
  {
    hide LiteralTail;
    if start == |data| || data[start] != OPEN {
      return None;
    }
    var cursor: nat, depth: nat := start + 1, 1;
    var output: Text := [];
    ghost var target := LiteralTail(data[start..][1..], 1);
    assert data[start..][1..] == data[cursor..];
    ThenNothing(target);
    while cursor < |data|
      invariant start < cursor <= |data| && depth > 0
      invariant target == Then(output, cursor - start - 1, LiteralTail(data[cursor..], depth))
      decreases |data| - cursor
    {
      var c := data[cursor];
      var rest := data[cursor + 1..];
      LiteralStep(data, cursor, depth);
      if c == OPEN {
        ThenJoins(output, cursor - start - 1, [c], 1, LiteralTail(rest, depth + 1));
        depth, output, cursor := depth + 1, output + [c], cursor + 1;
      } else if c == CLOSE {
        if depth == 1 {
          assert output + [] == output && [] + output == output;
          return Some(Reading(output, cursor + 1 - start));
        }
        ThenJoins(output, cursor - start - 1, [c], 1, LiteralTail(rest, depth - 1));
        depth, output, cursor := depth - 1, output + [c], cursor + 1;
      } else if c == BACKSLASH {
        var escaped := EscapeAt(rest);
        if escaped.None? {
          return None;
        }
        var next := cursor + 1 + escaped.value.length;
        ThenJoins(output, cursor - start - 1, escaped.value.text, next - cursor, LiteralTail(data[next..], depth));
        output, cursor := output + escaped.value.text, next;
      } else {
        ThenJoins(output, cursor - start - 1, [c], 1, LiteralTail(rest, depth));
        output, cursor := output + [c], cursor + 1;
      }
    }
    Unclosed(data[cursor..], depth);
    return None;
  }

  lemma ThenNothing(rest: Option<Reading>)
    ensures Then([], 0, rest) == rest
  {
    if rest.Some? {
      assert [] + rest.value.text == rest.value.text;
    }
  }

  lemma ThenJoins(a: Text, n: nat, b: Text, k: nat, rest: Option<Reading>)
    ensures Then(a, n, Then(b, k, rest)) == Then(a + b, n + k, rest)
  {
    if rest.Some? {
      assert a + (b + rest.value.text) == a + b + rest.value.text;
    }
  }

  lemma Unclosed(s: Text, depth: nat)
    requires s == [] && depth > 0
    ensures LiteralTail(s, depth) == None
  {
  }

  lemma LiteralStep(data: Text, cursor: nat, depth: nat)
    requires cursor < |data| && depth > 0
    ensures var c, rest := data[cursor], data[cursor + 1..];
            LiteralTail(data[cursor..], depth) ==
              if c == OPEN then Then([c], 1, LiteralTail(rest, depth + 1))
              else if c == CLOSE then
                if depth == 1 then Some(Reading([], 1)) else Then([c], 1, LiteralTail(rest, depth - 1))
              else if c == BACKSLASH then
                if EscapeAt(rest).None? then None
                else
                  var e := EscapeAt(rest).value;
                  Then(e.text, 1 + e.length, LiteralTail(data[cursor + 1 + e.length..], depth))
              else Then([c], 1, LiteralTail(rest, depth))
  {
    hide EscapeAt;
    var s := data[cursor..];
    assert s[1..] == data[cursor + 1..];
    if s[0] == BACKSLASH && EscapeAt(s[1..]).Some? {
      var e := EscapeAt(s[1..]).value;
      assert s[1 + e.length..] == data[cursor + 1 + e.length..];
    }
  }

  function Found(spans: seq<PdfSpan>, at: nat, rest: Option<seq<Piece>>): Option<seq<PdfSpan>> {
    if rest.Some? then Some(spans + SpansOf(rest.value, at)) else None
  }

  lemma {:induction false} ScanStep(data: Text, cursor: nat, mode: Mode, head: Head, spans: seq<PdfSpan>)
    requires cursor < |data| && First(data[cursor..], mode) == Some(head)
    ensures var end := cursor + head.length;
            && end <= |data|
            && Found(spans, cursor, Extract(data[cursor..], mode)) ==
                 Found(if head.span.Some? then spans + [PdfSpan(cursor, end, head.span.value)] else spans,
                       end, Extract(data[end..], head.mode))
  {
    hide First;
    var s, end := data[cursor..], cursor + head.length;
    assert s[head.length..] == data[end..];
    var rest := Extract(data[end..], head.mode);
    if rest.Some? {
      var piece := PieceOf(head, s[..head.length]);
      assert ([piece] + rest.value)[1..] == rest.value;
      var tail := SpansOf(rest.value, end);
      if head.span.Some? {
        assert spans + ([PdfSpan(cursor, end, piece.text)] + tail) == spans + [PdfSpan(cursor, end, piece.text)] + tail;
      } else {
        assert [] + tail == tail;
      }
    }
  }

  lemma ScanFails(data: Text, cursor: nat, mode: Mode, spans: seq<PdfSpan>)
    requires cursor < |data| && First(data[cursor..], mode) == None
    ensures Found(spans, cursor, Extract(data[cursor..], mode)) == None
  {
    hide First;
  }

  lemma ScanEnd(s: Text, at: nat, mode: Mode, spans: seq<PdfSpan>)
    requires s == []
    ensures Found(spans, at, Extract(s, mode)) == Some(spans)
  {
    assert spans + [] == spans;
  }

  lemma ScanStart(data: Text)
    ensures Found([], 0, Extract(data[0..], START)) ==
              match Extract(data, START) case None => None case Some(pieces) => Some(SpansOf(pieces, 0))
  {
    hide Extract;
    assert data[0..] == data;
    var all := Extract(data, START);
    assert all.Some? ==> [] + SpansOf(all.value, 0) == SpansOf(all.value, 0);
  }

  /** The scanner over the stream, with its cursor. */
  method ExtractSpans(data: Text) returns (result: Option<seq<PdfSpan>>)
    ensures result == match Extract(data, START) case None => None case Some(pieces) => Some(SpansOf(pieces, 0))
  {
    hide Extract, First, SpansOf, Literal, HexHead, WordHead, Found;
    var spans: seq<PdfSpan> := [];
    var cursor: nat := 0;
    var mode := START;
    ghost var target := Found([], 0, Extract(data[0..], START));
    ScanStart(data);
    while cursor < |data|
      invariant cursor <= |data|
      invariant target == Found(spans, cursor, Extract(data[cursor..], mode))
      decreases |data| - cursor
    {
      var head := NextToken(data, cursor, mode);
      if head.None? {
        ScanFails(data, cursor, mode, spans);
        return None;
      }
      ScanStep(data, cursor, mode, head.value, spans);
      var end := cursor + head.value.length;
      if head.value.span.Some? {
        spans := spans + [PdfSpan(cursor, end, head.value.span.value)];
      }
      cursor, mode := end, head.value.mode;
    }
    ScanEnd(data[cursor..], cursor, mode, spans);
    return Some(spans);
  }

  /** The token at the cursor, by the branches of the scanner. */
  method NextToken(data: Text, cursor: nat, mode: Mode) returns (head: Option<Head>)
    requires cursor < |data|
    ensures head == First(data[cursor..], mode)
  {
    hide Literal, HexHead, WordHead;
    var s, c := data[cursor..], data[cursor];
    if mode.skip {
      return Some(Head(1, None, false, mode.(skip := false)));
    }
    if IsSpace(c) {
      return Some(Head(1, None, false, mode));
    }
    if c == 37 {
      var newline := Find(s, LF);
      return Some(Head(if newline.Some? then newline.value + 1 else |s|, None, false, mode));
    }
    if c == OPEN {
      var literal := PdfLiteral(data, cursor);
      if literal.None? {
        return None;
      }
      return Some(Head(literal.value.length, Shown(literal.value.text, mode), true, mode.(skip := true)));
    }
    if c == LESS && !(cursor + 1 < |data| && data[cursor + 1] == LESS) {
      head := HexHead(s, mode);
    } else {
      head := WordHead(s, mode);
    }
  }
}
