/** Newline-delimited JSON cut out of a byte stream that arrives in arbitrary chunks. */
module LineFraming {
  import opened Texts

  /** What one line decodes to; the JSON decoder is left open. */
  type LineParser<!M> = Text -> Option<M>

  datatype StreamError = MalformedResponse

  const LF: Byte := 10
  const CR: Byte := 13

  predicate IsBlank(line: Text) {
    forall k | 0 <= k < |line| :: line[k] in [32, 9, 10, 12, 13]
  }

  /** A line without the carriage return that may end it. */
  function Chomp(line: Text): Text {
    if line != [] && line[|line| - 1] == CR then line[..|line| - 1] else line
  }

  // ---------------------------------------------------------------------------------------------
  // Reference: the lines of a whole stream.

  datatype Split = Split(lines: seq<Text>, rest: Text)

  /** Reads byte by byte; `current` is the line begun so far. */
  function Lines(s: Text, current: Text): Split {
    if s == [] then Split([], current)
    else if s[0] == LF then
      var later := Lines(s[1..], []);
      later.(lines := [current] + later.lines)
    else Lines(s[1..], current + [s[0]])
  }

  /** The messages of the lines that are not blank, or failure if one of them does not decode. */
  function Decode<M>(lines: seq<Text>, parse: LineParser<M>): Result<seq<M>, StreamError> {
    if lines == [] then Ok([])
    else
      var line := Chomp(lines[0]);
      if IsBlank(line) then Decode(lines[1..], parse)
      else
        match (parse(line), Decode(lines[1..], parse))
        case (Some(m), Ok(rest)) => Ok([m] + rest)
        case _ => Err(MalformedResponse)
  }

  function Join<M>(first: Result<seq<M>, StreamError>, second: Result<seq<M>, StreamError>): Result<seq<M>, StreamError> {
    if first.Ok? && second.Ok? then Ok(first.value + second.value) else Err(MalformedResponse)
  }

  /** An unterminated last line is decoded as it is, blank or not. */
  function DecodeRest<M>(rest: Text, parse: LineParser<M>): Result<seq<M>, StreamError> {
    if rest == [] then Ok([])
    else
      match parse(rest)
      case Some(m) => Ok([m])
      case None => Err(MalformedResponse)
  }

  function DecodeStream<M>(stream: Text, parse: LineParser<M>): Result<seq<M>, StreamError> {
    var split := Lines(stream, []);
    Join(Decode(split.lines, parse), DecodeRest(split.rest, parse))
  }

  // ---------------------------------------------------------------------------------------------
  // The decoder.

  /** The first line feed at or after `from`. */
  function Position(s: Text, from: nat): (found: Option<nat>)
    requires from <= |s|
    ensures found.Some? ==> from <= found.value < |s| && s[found.value] == LF
                            && forall k :: from <= k < found.value ==> s[k] != LF
    ensures found.None? ==> forall k :: from <= k < |s| ==> s[k] != LF
    decreases |s| - from
  {
    if from == |s| then None else if s[from] == LF then Some(from) else Position(s, from + 1)
  }

  datatype Step<+M> = Step(buffer: Text, result: Result<seq<M>, StreamError>)

  function DrainLines<M>(buffer: Text, final: bool, parse: LineParser<M>, output: seq<M>): (step: Step<M>)
    decreases |buffer|
  {
    match Position(buffer, 0)
    case None =>
      if !final || buffer == [] then Step(buffer, Ok(output))
      else
        (match parse(buffer)
         case Some(m) => Step([], Ok(output + [m]))
         case None => Step([], Err(MalformedResponse)))
    case Some(at) =>
      var line, rest := Chomp(buffer[..at]), buffer[at + 1..];
      if IsBlank(line) then DrainLines(rest, final, parse, output)
      else
        match parse(line)
        case Some(m) => DrainLines(rest, final, parse, output + [m])
        case None => Step(rest, Err(MalformedResponse))
  }

  class NdjsonDecoder<M> {
    var buffer: Text
    const parse: LineParser<M>

    constructor (parse: LineParser<M>)
      ensures buffer == [] && this.parse == parse
    {
      buffer := [];
      this.parse := parse;
    }

    method Push(chunk: Text) returns (result: Result<seq<M>, StreamError>)
      modifies this
      ensures Step(buffer, result) == DrainLines(old(buffer) + chunk, false, parse, [])
    {
      buffer := buffer + chunk;
      result := Drain(false);
    }

    method Finish() returns (result: Result<seq<M>, StreamError>)
      modifies this
      ensures Step(buffer, result) == DrainLines(old(buffer), true, parse, [])
    {
      result := Drain(true);
    }

    method Drain(final: bool) returns (result: Result<seq<M>, StreamError>)
      modifies this
      ensures Step(buffer, result) == DrainLines(old(buffer), final, parse, [])
    {
      hide Position, IsBlank;
      var output: seq<M> := [];
      ghost var target := DrainLines(buffer, final, parse, []);
      while true
        invariant DrainLines(buffer, final, parse, output) == target
        decreases |buffer|
      {
        var position := Position(buffer, 0);
        if position.None? {
          if !final || buffer == [] {
            break;
          }
          var line := buffer;
          buffer := [];
          match parse(line) {
            case None => return Err(MalformedResponse);
            case Some(m) => return Ok(output + [m]);
          }
        }
        label Taken:
        var line := buffer[..position.value + 1];
        buffer := buffer[position.value + 1..];
        if line[|line| - 1] == LF {
          line := line[..|line| - 1];
        }
        assert line == old@Taken(buffer)[..position.value];
        if line != [] && line[|line| - 1] == CR {
          line := line[..|line| - 1];
        }
        if !IsBlank(line) {
          match parse(line) {
            case None => return Err(MalformedResponse);
            case Some(m) => output := output + [m];
          }
        }
      }
      return Ok(output);
    }
  }

  /** A whole stream, pushed chunk by chunk and then finished. */
  function Run<M>(buffer: Text, parse: LineParser<M>, chunks: seq<Text>): Result<seq<M>, StreamError>
    decreases |chunks|
  {
    if chunks == [] then DrainLines(buffer, true, parse, []).result
    else
      var step := DrainLines(buffer + chunks[0], false, parse, []);
      if step.result.Err? then step.result else Join(step.result, Run(step.buffer, parse, chunks[1..]))
  }

  function Concat(chunks: seq<Text>): Text {
    if chunks == [] then [] else chunks[0] + Concat(chunks[1..])
  }

  /** Reading two stretches one after the other is reading their concatenation. */
  lemma {:induction false} LinesCompose(a: Text, b: Text, current: Text)
    ensures var first := Lines(a, current);
            var second := Lines(b, first.rest);
            Lines(a + b, current) == Split(first.lines + second.lines, second.rest)
    decreases |a|
  {
    if a == [] {
      assert a + b == b;
    } else {
      assert (a + b)[1..] == a[1..] + b;
      LinesCompose(a[1..], b, if a[0] == LF then [] else current + [a[0]]);
      if a[0] == LF {
        var later := Lines(a[1..], []);
        var second := Lines(b, later.rest);
        assert [current] + (later.lines + second.lines) == [current] + later.lines + second.lines;
      }
    }
  }

  lemma {:induction false} LinesUpTo(s: Text, at: nat, current: Text)
    requires at < |s| && s[at] == LF && forall k :: 0 <= k < at ==> s[k] != LF
    ensures var later := Lines(s[at + 1..], []);
            Lines(s, current) == Split([current + s[..at]] + later.lines, later.rest)
    decreases at
  {
    if at == 0 {
      assert current + s[..0] == current;
    } else {
      LinesUpTo(s[1..], at - 1, current + [s[0]]);
      assert s[1..][at..] == s[at + 1..];
      assert current + [s[0]] + s[1..][..at - 1] == current + s[..at];
    }
  }

  lemma {:induction false} LinesOfOpenLine(s: Text, current: Text)
    requires forall k :: 0 <= k < |s| ==> s[k] != LF
    ensures Lines(s, current) == Split([], current + s)
    decreases |s|
  {
    if s == [] {
      assert current + s == current;
    } else {
      LinesOfOpenLine(s[1..], current + [s[0]]);
      assert current + [s[0]] + s[1..] == current + s;
    }
  }

  /** Draining decodes the complete lines and keeps the rest. */
  lemma {:induction false} DrainIsDecode<M>(buffer: Text, parse: LineParser<M>, output: seq<M>)
    ensures var split := Lines(buffer, []);
            var step := DrainLines(buffer, false, parse, output);
            && step.result == Join(Ok(output), Decode(split.lines, parse))
            && (step.result.Ok? ==> step.buffer == split.rest)
    decreases |buffer|
  {
    hide Position, IsBlank, Chomp;
    match Position(buffer, 0)
    case None =>
      LinesOfOpenLine(buffer, []);
      assert [] + buffer == buffer && output + [] == output;
    case Some(at) =>
      LinesUpTo(buffer, at, []);
      assert [] + buffer[..at] == buffer[..at];
      var line, rest := Chomp(buffer[..at]), buffer[at + 1..];
      if IsBlank(line) {
        DrainIsDecode(rest, parse, output);
      } else if parse(line).Some? {
        var m := parse(line).value;
        DrainIsDecode(rest, parse, output + [m]);
        var later := Decode(Lines(rest, []).lines, parse);
        assert later.Ok? ==> output + [m] + later.value == output + ([m] + later.value);
      }
  }

  lemma {:induction false} DecodeAppends<M>(a: seq<Text>, b: seq<Text>, parse: LineParser<M>)
    ensures Decode(a + b, parse) == Join(Decode(a, parse), Decode(b, parse))
    decreases |a|
  {
    if a == [] {
      assert a + b == b;
      var rest := Decode(b, parse);
      assert if rest.Ok? then [] + rest.value == rest.value else rest.error.MalformedResponse?;
    } else {
      assert (a + b)[1..] == a[1..] + b;
      DecodeAppends(a[1..], b, parse);
      var m, x, y := parse(Chomp(a[0])), Decode(a[1..], parse), Decode(b, parse);
      assert m.Some? && x.Ok? && y.Ok? ==> [m.value] + (x.value + y.value) == [m.value] + x.value + y.value;
    }
  }

  lemma FinishIsDecode<M>(buffer: Text, parse: LineParser<M>)
    requires forall k :: 0 <= k < |buffer| ==> buffer[k] != LF
    ensures DrainLines(buffer, true, parse, []).result == DecodeRest(buffer, parse)
  {
    if buffer != [] && parse(buffer).Some? {
      assert [] + [parse(buffer).value] == [parse(buffer).value];
    }
  }

  lemma {:induction false} RestIsOpen(s: Text, current: Text)
    requires forall k :: 0 <= k < |current| ==> current[k] != LF
    ensures forall k :: 0 <= k < |Lines(s, current).rest| ==> Lines(s, current).rest[k] != LF
    decreases |s|
  {
    if s != [] {
      RestIsOpen(s[1..], if s[0] == LF then [] else current + [s[0]]);
    }
  }

  lemma {:induction false} RunIsReference<M>(buffer: Text, parse: LineParser<M>, chunks: seq<Text>)
    requires forall k :: 0 <= k < |buffer| ==> buffer[k] != LF
    ensures Run(buffer, parse, chunks) == DecodeStream(buffer + Concat(chunks), parse)
    decreases |chunks|
  {
    hide DrainLines, Lines, Decode;
    if chunks == [] {
      FinishIsDecode(buffer, parse);
      LinesOfOpenLine(buffer, []);
      assert [] + buffer == buffer && buffer + [] == buffer;
      NoLines(parse);
      var last := DecodeRest(buffer, parse);
      assert last.Ok? ==> [] + last.value == last.value;
    } else {
      var fed, future := buffer + chunks[0], Concat(chunks[1..]);
      var first := Lines(fed, []);
      assert fed + future == buffer + Concat(chunks);
      DrainIsDecode(fed, parse, []);
      var done := Decode(first.lines, parse);
      assert done.Ok? ==> [] + done.value == done.value;
      RestIsOpen(fed, []);
      RunIsReference(first.rest, parse, chunks[1..]);
      LinesOfOpenLine(first.rest, []);
      LinesCompose(fed, future, []);
      LinesCompose(first.rest, future, []);
      assert [] + first.rest == first.rest;
      var second := Lines(future, first.rest);
      assert [] + second.lines == second.lines;
      DecodeAppends(first.lines, second.lines, parse);
      JoinAssociates(Decode(first.lines, parse), Decode(second.lines, parse), DecodeRest(second.rest, parse));
    }
  }

  lemma NoLines<M>(parse: LineParser<M>)
    ensures Decode([], parse) == Ok([])
  {
  }

  lemma JoinAssociates<M>(a: Result<seq<M>, StreamError>, b: Result<seq<M>, StreamError>, c: Result<seq<M>, StreamError>)
    ensures Join(Join(a, b), c) == Join(a, Join(b, c))
  {
    if a.Ok? && b.Ok? && c.Ok? {
      assert a.value + b.value + c.value == a.value + (b.value + c.value);
    }
  }

  /** However a stream is cut, the decoder yields the messages of its lines, or fails like them. */
  lemma LineFramingIsInvariant<M>(parse: LineParser<M>, chunks: seq<Text>)
    ensures Run([], parse, chunks) == DecodeStream(Concat(chunks), parse)
  {
    RunIsReference([], parse, chunks);
    assert [] + Concat(chunks) == Concat(chunks);
  }
}
