/** XHTML parts of an EPUB: the visible text of a chapter, and its replacement. */
module Xhtml {
  import opened Texts
  import opened Strings
  import opened Tags
  import opened XmlText
  import opened Ooxml

  const MAX_SEGMENTS: nat := 10_000

  predicate IsHidden(stack: seq<string>) {
    exists k | 0 <= k < |stack| :: stack[k] == "script" || stack[k] == "style"
  }

  /** What the scanner takes from the front, the elements open behind it, and whether it is a span. */
  datatype Step = Step(length: nat, stack: seq<string>, visible: bool)

  function AfterElement(raw: string, stack: seq<string>): Option<seq<string>>
    requires raw != ""
  {
    match ElementName(raw)
    case None => Some(stack)
    case Some(name) =>
      if IsClosing(raw) then
        if stack != [] && stack[|stack| - 1] == LowerCase(name) then Some(stack[..|stack| - 1]) else None
      else if |raw| >= 2 && raw[|raw| - 2..] == "/>" then Some(stack)
      else Some(stack + [LowerCase(name)])
  }

  /** A comment, a declaration, a processing instruction or an element's tag. */
  function MarkupStep(s: string, stack: seq<string>, spans: nat): (step: Option<Step>)
    requires s != "" && s[0] == '<'
    ensures step.Some? ==> 0 < step.value.length <= |s| && !step.value.visible
  {
    if StartsWith(s, "<!--") then
      match Find(s, "-->", 4) case None => None case Some(at) => Some(Step(at + 3, stack, false))
    else
      match TagEnd(s, 1, None)
      case None => None
      case Some(end) =>
        if end >= 2 && (s[1] == '?' || s[1] == '!') then Some(Step(end, stack, false))
        else
          match AfterElement(s[..end], stack)
          case None => None
          case Some(after) => if spans > MAX_SEGMENTS then None else Some(Step(end, after, false))
  }

  function RunEnd(s: string): (end: nat)
    ensures end <= |s| && (forall k | 0 <= k < end :: s[k] != '<') && (end < |s| ==> s[end] == '<')
  {
    match IndexOf(s, '<', 0) case Some(at) => at case None => |s|
  }

  /** A text run is a span when it is not hidden and stands for more than white space. */
  function TextStep(s: string, stack: seq<string>): (step: Option<Step>)
    requires s != "" && s[0] != '<'
    ensures step.Some? ==> 0 < step.value.length <= |s|
  {
    var end := RunEnd(s);
    if IsHidden(stack) then Some(Step(end, stack, false))
    else
      match Unescape(s[..end])
      case None => None
      case Some(text) => Some(Step(end, stack, !IsBlankText(text)))
  }

  function NextStep(s: string, stack: seq<string>, spans: nat): (step: Option<Step>)
    requires s != ""
    ensures step.Some? ==> 0 < step.value.length <= |s|
  {
    if s[0] == '<' then MarkupStep(s, stack, spans) else TextStep(s, stack)
  }

  datatype Piece = Piece(raw: string, visible: bool)

  function Scan(s: string, stack: seq<string>, spans: nat): Option<seq<Piece>>
    decreases |s|
  {
    if s == "" then if stack == [] then Some([]) else None
    else
      match NextStep(s, stack, spans)
      case None => None
      case Some(step) =>
        match Scan(s[step.length..], step.stack, spans + if step.visible then 1 else 0)
        case None => None
        case Some(rest) => Some([Piece(s[..step.length], step.visible)] + rest)
  }

  function Parse(xml: string, accepts: string -> bool): Option<seq<Piece>> {
    if !accepts(xml) || xml == "" || '\0' in xml then None else Scan(xml, [], 0)
  }

  // The loop

  datatype TextSpan = TextSpan(start: nat, end: nat)

  function SpansOf(pieces: seq<Piece>, at: nat): seq<TextSpan> {
    if pieces == [] then []
    else
      (if pieces[0].visible then [TextSpan(at, at + |pieces[0].raw|)] else []) + SpansOf(pieces[1..], at + |pieces[0].raw|)
  }

  function Found(spans: seq<TextSpan>, at: nat, rest: Option<seq<Piece>>): Option<seq<TextSpan>> {
    if rest.Some? then Some(spans + SpansOf(rest.value, at)) else None
  }

  lemma ScanTurn(xml: string, cursor: nat, stack: seq<string>, spans: seq<TextSpan>, step: Step)
    requires cursor < |xml| && NextStep(xml[cursor..], stack, |spans|) == Some(step)
    ensures var end := cursor + step.length;
            var more := if step.visible then spans + [TextSpan(cursor, end)] else spans;
            end <= |xml| &&
            Found(spans, cursor, Scan(xml[cursor..], stack, |spans|)) == Found(more, end, Scan(xml[end..], step.stack, |more|))
  {
    hide NextStep;
    var s, end := xml[cursor..], cursor + step.length;
    assert s[step.length..] == xml[end..];
    var rest := Scan(xml[end..], step.stack, |spans| + if step.visible then 1 else 0);
    if rest.Some? {
      var piece := Piece(s[..step.length], step.visible);
      assert ([piece] + rest.value)[1..] == rest.value;
      var tail := SpansOf(rest.value, end);
      assert [] + tail == tail;
      assert spans + ([TextSpan(cursor, end)] + tail) == spans + [TextSpan(cursor, end)] + tail;
    }
  }

  lemma ScanFails(s: string, stack: seq<string>, spans: seq<TextSpan>, at: nat)
    requires s != "" && NextStep(s, stack, |spans|).None?
    ensures Found(spans, at, Scan(s, stack, |spans|)) == None
  {
    hide NextStep;
  }

  lemma ScanEnds(s: string, stack: seq<string>, spans: seq<TextSpan>, at: nat)
    requires s == ""
    ensures Found(spans, at, Scan(s, stack, |spans|)) == if stack == [] then Some(spans) else None
  {
    assert spans + [] == spans;
  }

  lemma ScanStarts(xml: string)
    ensures Found([], 0, Scan(xml[0..], [], 0)) ==
              match Scan(xml, [], 0) case None => None case Some(pieces) => Some(SpansOf(pieces, 0))
  {
    hide Scan, SpansOf;
    assert xml[0..] == xml;
    var all := Scan(xml, [], 0);
    assert all.Some? ==> [] + SpansOf(all.value, 0) == SpansOf(all.value, 0);
  }

  /** The scanner with its cursor and its stack of open elements. */
  method ScanXhtml(xml: string, accepts: string -> bool) returns (result: Option<seq<TextSpan>>)
    ensures result == match Parse(xml, accepts) case None => None case Some(pieces) => Some(SpansOf(pieces, 0))
  {
    hide Scan, SpansOf, NextStep, Found;
    if !accepts(xml) || xml == "" || '\0' in xml {
      return None;
    }
    var spans: seq<TextSpan> := [];
    var stack: seq<string> := [];
    var cursor: nat := 0;
    ghost var target := Found([], 0, Scan(xml[0..], [], 0));
    ScanStarts(xml);
    while cursor < |xml|
      invariant cursor <= |xml|
      invariant target == Found(spans, cursor, Scan(xml[cursor..], stack, |spans|))
      decreases |xml| - cursor
    {
      var step := NextToken(xml, cursor, stack, |spans|);
      if step.None? {
        ScanFails(xml[cursor..], stack, spans, cursor);
        return None;
      }
      ScanTurn(xml, cursor, stack, spans, step.value);
      var end := cursor + step.value.length;
      if step.value.visible {
        spans := spans + [TextSpan(cursor, end)];
      }
      cursor, stack := end, step.value.stack;
    }
    ScanEnds(xml[cursor..], stack, spans, cursor);
    if stack != [] {
      return None;
    }
    return Some(spans);
  }

  /** A run of text stands for something when it is read as more than white space. */
  predicate IsShown(run: string) {
    var text := Unescape(run);
    text.Some? && !IsBlankText(text.value)
  }

  /**
   * The token at the cursor. Text reaches up to the next `<` and leaves the open elements alone; it
   * is a span when it is outside hidden elements and shows something, and the scan stops only at
   * text that cannot be read. Markup ends in `>` and is never a span.
   */
  method NextToken(xml: string, cursor: nat, stack: seq<string>, spans: nat) returns (step: Option<Step>)
    requires cursor < |xml|
    ensures step == NextStep(xml[cursor..], stack, spans)
    ensures step.Some? ==> cursor < cursor + step.value.length <= |xml|
    ensures xml[cursor] == '<' && step.Some? ==>
              xml[cursor + step.value.length - 1] == '>' && !step.value.visible
    ensures xml[cursor] != '<' && step.Some? ==>
              var end := cursor + step.value.length;
              && '<' !in xml[cursor..end] && (end < |xml| ==> xml[end] == '<')
              && step.value.stack == stack
              && (step.value.visible <==> !IsHidden(stack) && IsShown(xml[cursor..end]))
    ensures xml[cursor] != '<' && step.None? ==>
              !IsHidden(stack) && exists end | cursor < end <= |xml| :: Unescape(xml[cursor..end]).None?
  {
    hide AfterElement, Unescape, IsHidden, IsBlankText;
    if xml[cursor] != '<' {
      var end := cursor + 1;
      while end < |xml| && xml[end] != '<'
        invariant cursor < end <= |xml|
        invariant forall k | cursor <= k < end :: xml[k] != '<'
      {
        end := end + 1;
      }
      RunEndsAt(xml, cursor, end);
      if IsHidden(stack) {
        return Some(Step(end - cursor, stack, false));
      }
      var text := Unescape(xml[cursor..end]);
      if text.None? {
        return None;
      }
      return Some(Step(end - cursor, stack, !IsBlankText(text.value)));
    }
    step := NextMarkup(xml, cursor, stack, spans);
  }

  lemma RunEndsAt(xml: string, cursor: nat, end: nat)
    requires cursor < end <= |xml| && (forall k | cursor <= k < end :: xml[k] != '<') && (end < |xml| ==> xml[end] == '<')
    ensures RunEnd(xml[cursor..]) == end - cursor && xml[cursor..][..end - cursor] == xml[cursor..end]
  {
    var s := xml[cursor..];
    assert forall k | 0 <= k < end - cursor :: s[k] == xml[cursor + k];
    assert end < |xml| ==> s[end - cursor] == '<';
  }

  method NextMarkup(xml: string, cursor: nat, stack: seq<string>, spans: nat) returns (step: Option<Step>)
    requires cursor < |xml| && xml[cursor] == '<'
    ensures step == MarkupStep(xml[cursor..], stack, spans)
    ensures step.Some? ==> cursor + step.value.length <= |xml| && xml[cursor + step.value.length - 1] == '>'
  {
    hide AfterElement;
    ghost var s := xml[cursor..];
    if cursor + 4 <= |xml| && xml[cursor..cursor + 4] == "<!--" {
      assert s[..4] == xml[cursor..cursor + 4];
      var close := Find(xml[cursor..], "-->", 4);
      if close.None? {
        return None;
      }
      assert s[close.value + 2] == s[close.value..close.value + 3][2] == '>';
      return Some(Step(close.value + 3, stack, false));
    }
    assert |s| >= 4 ==> s[..4] == xml[cursor..cursor + 4];
    var end := FindTagEnd(xml, cursor);
    if end.None? {
      return None;
    }
    var raw := xml[cursor..end.value];
    assert s[..end.value - cursor] == raw && raw[1] == s[1];
    if raw[1] == '?' || raw[1] == '!' {
      return Some(Step(|raw|, stack, false));
    }
    var after := AfterElement(raw, stack);
    if after.None? || spans > MAX_SEGMENTS {
      return None;
    }
    return Some(Step(|raw|, after.value, false));
  }
}
