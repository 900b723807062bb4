/** SRT and WebVTT: the classifier that picks the lines to translate, and the validator. */
module Subtitles {
  import opened Texts
  import opened Strings

  datatype Format = Srt | WebVtt

  /** A line and the line break behind it. */
  datatype Line = Line(text: string, ending: string)

  function CutLine(s: string): Line {
    if s != "" && s[|s| - 1] == '\r' then Line(s[..|s| - 1], "\r\n") else Line(s, "\n")
  }

  function LinesFrom(s: string): seq<Line>
    decreases |s|
  {
    if s == "" then []
    else
      match IndexOf(s, '\n', 0)
      case None => [Line(s, "")]
      case Some(at) => [CutLine(s[..at])] + LinesFrom(s[at + 1..])
  }

  function Lines(text: string): seq<Line> {
    if text == "" then [Line("", "")] else LinesFrom(text)
  }

  function PrintLines(lines: seq<Line>): string {
    if lines == [] then "" else lines[0].text + lines[0].ending + PrintLines(lines[1..])
  }

  function Trimmed(lines: seq<Line>): (r: seq<string>)
    ensures |r| == |lines|
  {
    seq(|lines|, k requires 0 <= k < |lines| => Trim(lines[k].text))
  }

  // Time lines

  function SplitAt(s: string, c: char): (fields: seq<string>)
    ensures fields != []
    decreases |s|
  {
    match IndexOf(s, c, 0)
    case None => [s]
    case Some(at) => [s[..at]] + SplitAt(s[at + 1..], c)
  }

  function LastIndexOf(s: string, c: char): (found: Option<nat>)
    ensures found.Some? ==> found.value < |s|
  {
    if s == "" then None else if s[|s| - 1] == c then Some(|s| - 1) else LastIndexOf(s[..|s| - 1], c)
  }

  /** The field is a run of digits that fits 64 bits. */
  predicate IsCount(s: string) {
    s != "" && AllDigits(s) && Decimal(s) < 0x1_0000_0000_0000_0000
  }

  /** Minutes and seconds, with hours in front or without. */
  predicate HasFields(fields: seq<string>) {
    && (|fields| == 2 || |fields| == 3) && (forall k | 0 <= k < |fields| :: IsCount(fields[k]))
    && Decimal(fields[|fields| - 2]) < 60 && Decimal(fields[|fields| - 1]) < 60
  }

  predicate IsTimestamp(s: string, format: Format) {
    match LastIndexOf(s, if format.Srt? then ',' else '.')
    case None => false
    case Some(at) => |s| - at - 1 == 3 && AllDigits(s[at + 1..]) && HasFields(SplitAt(s[..at], ':'))
  }

  function FirstWord(s: string): string {
    Leading(TrimStart(s))
  }

  function Leading(s: string): string {
    if s == "" || IsSpace(s[0]) then "" else [s[0]] + Leading(s[1..])
  }

  predicate IsTimeLine(line: string, format: Format) {
    match Find(line, "-->", 0)
    case None => false
    case Some(at) => IsTimestamp(Trim(line[..at]), format) && IsTimestamp(FirstWord(line[at + 3..]), format)
  }

  predicate IsMetadata(line: string, format: Format) {
    format.WebVtt? && (line == "NOTE" || line == "STYLE" || line == "REGION")
  }

  predicate IsHeader(line: string, format: Format) {
    format.WebVtt? && StartsWith(line, "WEBVTT")
  }

  // The classifier

  datatype Reader = Reader(cueStart: bool, expecting: bool, metadata: bool)

  const START: Reader := Reader(true, false, false)

  /** The line must stay as it is. `first` says that it is line zero. */
  predicate Structural(r: Reader, line: string, first: bool, format: Format) {
    || line == "" || (first && IsHeader(line, format)) || r.metadata || IsMetadata(line, format) || r.expecting
    || (r.cueStart && IsTimeLine(line, format))
    || (format.Srt? && r.cueStart && AllDigits(line) && line != "")
    || (format.WebVtt? && r.cueStart && !IsTimeLine(line, format) && !(first && IsHeader(line, format)))
  }

  function Read(r: Reader, line: string, format: Format): Reader {
    if line == "" then START
    else if IsMetadata(line, format) then Reader(false, r.expecting, true)
    else if r.metadata then Reader(false, r.expecting, true)
    else if r.expecting then Reader(false, false, false)
    else if r.cueStart && !IsTimeLine(line, format) then Reader(false, true, false)
    else if IsTimeLine(line, format) then Reader(false, r.expecting, r.metadata)
    else r
  }

  function Kinds(lines: seq<string>, r: Reader, first: bool, format: Format): (kinds: seq<bool>)
    ensures |kinds| == |lines|
  {
    if lines == [] then []
    else [Structural(r, lines[0], first, format)] + Kinds(lines[1..], Read(r, lines[0], format), false, format)
  }

  lemma KindsSplit(lines: seq<string>, r: Reader, first: bool, format: Format)
    ensures Kinds(lines, r, first, format) ==
              if lines == [] then []
              else [Structural(r, lines[0], first, format)] + Kinds(lines[1..], Read(r, lines[0], format), false, format)
  {
  }

  // The validator

  datatype Check = Check(cueStart: bool, expecting: bool, cues: nat, hasText: bool, metadata: bool)

  const BEGIN: Check := Check(true, false, 0, false, false)

  function Validate(v: Check, line: string, format: Format): Option<Check> {
    if line == "" then
      if v.metadata then Some(Check(true, false, v.cues, false, false))
      else if v.expecting || (v.cues > 0 && !v.hasText) then None
      else Some(Check(true, false, v.cues, false, false))
    else if IsMetadata(line, format) && v.cueStart then Some(v.(metadata := true, cueStart := false))
    else if v.metadata then Some(v)
    else if IsHeader(line, format) && v.cues == 0 then Some(v.(cueStart := false))
    else if v.expecting then
      if IsTimeLine(line, format) then Some(Check(false, false, v.cues + 1, false, v.metadata)) else None
    else if v.cueStart && IsTimeLine(line, format) then Some(Check(false, v.expecting, v.cues + 1, false, v.metadata))
    else if v.cueStart then
      if format.WebVtt? || AllDigits(line) then Some(v.(expecting := true)) else None
    else Some(v.(hasText := true))
  }

  predicate Complete(v: Check) {
    !v.expecting && v.cues > 0 && (v.metadata || v.cueStart || v.hasText)
  }

  predicate ValidFrom(lines: seq<string>, v: Check, format: Format) {
    if lines == [] then Complete(v)
    else
      match Validate(v, lines[0], format)
      case None => false
      case Some(next) => ValidFrom(lines[1..], next, format)
  }

  predicate Valid(text: string, format: Format) {
    var lines := Lines(text);
    && lines != [] && (format.WebVtt? ==> StartsWith(TrimStart(lines[0].text), "WEBVTT"))
    && ValidFrom(Trimmed(lines), BEGIN, format)
  }

  // The loops

  method SplitLines(text: string) returns (lines: seq<Line>)
    ensures lines == Lines(text)
  {
    hide LinesFrom, CutLine, Lines;
    lines := [];
    LinesBegin(text);
    var start: nat, offset: nat := 0, 0;
    while offset < |text|
      invariant start <= offset <= |text|
      invariant forall k | start <= k < offset :: text[k] != '\n'
      invariant text != "" ==> Lines(text) == lines + LinesFrom(text[start..])
      invariant text == "" ==> lines == []
    {
      if text[offset] == '\n' {
        NextLine(text, start, offset);
        lines := lines + [CutLine(text[start..offset])];
        start := offset + 1;
      }
      offset := offset + 1;
    }
    LastLine(text, start);
    if start < |text| || text == "" {
      lines := lines + [Line(text[start..], "")];
    }
  }

  lemma LinesBegin(text: string)
    ensures Lines(text) == if text == "" then [Line("", "")] else [] + LinesFrom(text[0..])
  {
    hide LinesFrom;
    assert text[0..] == text;
  }

  lemma NextLine(text: string, start: nat, offset: nat)
    requires start <= offset < |text| && text[offset] == '\n'
    requires forall k | start <= k < offset :: text[k] != '\n'
    ensures LinesFrom(text[start..]) == [CutLine(text[start..offset])] + LinesFrom(text[offset + 1..])
  {
    var s := text[start..];
    assert s[offset - start] == '\n' && forall k | 0 <= k < offset - start :: s[k] == text[start + k];
    assert s[..offset - start] == text[start..offset] && s[offset - start + 1..] == text[offset + 1..];
  }

  lemma LastLine(text: string, start: nat)
    requires start <= |text| && forall k | start <= k < |text| :: text[k] != '\n'
    ensures LinesFrom(text[start..]) == if start < |text| then [Line(text[start..], "")] else []
  {
    var s := text[start..];
    assert forall k | 0 <= k < |s| :: s[k] == text[start + k];
  }

  lemma TrimmedAt(lines: seq<Line>, index: nat)
    requires index < |lines|
    ensures var rest := Trimmed(lines)[index..];
            rest != [] && rest[0] == Trim(lines[index].text) && rest[1..] == Trimmed(lines)[index + 1..]
  {
    hide Trim;
  }

  lemma KindsTurn(lines: seq<Line>, index: nat, r: Reader, format: Format, done: seq<bool>)
    requires index < |lines|
    ensures var trimmed, line := Trimmed(lines), Trim(lines[index].text);
            done + Kinds(trimmed[index..], r, index == 0, format)
            == done + [Structural(r, line, index == 0, format)] + Kinds(trimmed[index + 1..], Read(r, line, format), false, format)
  {
    hide Structural, Kinds, Trim, Read, Trimmed;
    TrimmedAt(lines, index);
    KindsSplit(Trimmed(lines)[index..], r, index == 0, format);
  }

  method LineKinds(text: string, format: Format) returns (kinds: seq<bool>)
    ensures kinds == Kinds(Trimmed(Lines(text)), START, true, format)
  {
    hide Structural, Kinds, IsTimeLine, IsMetadata, Trim, Lines, Trimmed;
    var lines := SplitLines(text);
    kinds := [];
    var cueStart, expecting, metadata := true, false, false;
    ghost var trimmed := Trimmed(lines);
    assert trimmed[0..] == trimmed;
    for index := 0 to |lines|
      invariant |kinds| == index
      invariant Kinds(trimmed, START, true, format) ==
                  kinds + Kinds(trimmed[index..], Reader(cueStart, expecting, metadata), index == 0, format)
    {
      var line := Trim(lines[index].text);
      KindsTurn(lines, index, Reader(cueStart, expecting, metadata), format, kinds);
      var isTime := IsTimeLine(line, format);
      kinds := kinds + [Structural(Reader(cueStart, expecting, metadata), line, index == 0, format)];
      if line == "" {
        cueStart, expecting, metadata := true, false, false;
      } else if IsMetadata(line, format) {
        metadata, cueStart := true, false;
      } else if metadata {
        cueStart := false;
      } else if expecting {
        expecting, cueStart := false, false;
      } else if cueStart && !isTime {
        expecting, cueStart := true, false;
      } else if isTime {
        cueStart := false;
      }
    }
  }

  method ValidateStructure(text: string, format: Format) returns (ok: bool)
    ensures ok == Valid(text, format)
  {
    hide IsTimeLine, IsMetadata, IsHeader, AllDigits, Trim, TrimStart, Lines;
    var lines := SplitLines(text);
    if lines == [] || (format.WebVtt? && !StartsWith(TrimStart(lines[0].text), "WEBVTT")) {
      return false;
    }
    var v := BEGIN;
    ghost var trimmed := Trimmed(lines);
    assert trimmed[0..] == trimmed;
    for index := 0 to |lines|
      invariant ValidFrom(trimmed, BEGIN, format) == ValidFrom(trimmed[index..], v, format)
    {
      assert trimmed[index..][0] == Trim(lines[index].text) && trimmed[index..][1..] == trimmed[index + 1..];
      var next := Validate(v, Trim(lines[index].text), format);
      if next.None? {
        return false;
      }
      v := next.value;
    }
    return Complete(v);
  }
}
