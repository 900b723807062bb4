/** Server-sent events cut out of a byte stream that arrives in arbitrary chunks. */
module EventFraming {
  import opened Texts

  /** What one event decodes to; the decoder behind the framing is left open. */
  datatype Parsed<+M> = Skip | Message(message: M) | Malformed

  type Parser<!M> = Text -> Parsed<M>

  datatype StreamError = MalformedResponse

  datatype Boundary = Boundary(position: nat, length: nat)

  const LF2: Text := [10, 10]
  const CRLF2: Text := [13, 10, 13, 10]

  /** Two line feeds anywhere win over two CRLF pairs anywhere. */
  function FindEventBoundary(buffer: Text): (b: Option<Boundary>)
    ensures b.Some? ==> 0 < b.value.length && b.value.position + b.value.length <= |buffer|
  {
    match FindFrom(buffer, LF2, 0)
    case Some(at) => Some(Boundary(at, 2))
    case None =>
      match FindFrom(buffer, CRLF2, 0)
      case Some(at) => Some(Boundary(at, 4))
      case None => None
  }

  datatype Step<+M> = Step(buffer: Text, result: Result<seq<M>, StreamError>)

  /** Decodes every complete event of `buffer`, behind the messages of `output`. */
  function Drain<M>(buffer: Text, parse: Parser<M>, output: seq<M>): (step: Step<M>)
    decreases |buffer|
  {
    match FindEventBoundary(buffer)
    case None => Step(buffer, Ok(output))
    case Some(b) =>
      var rest := buffer[b.position + b.length..];
      match parse(buffer[..b.position])
      case Malformed => Step(rest, Err(MalformedResponse))
      case Skip => Drain(rest, parse, output)
      case Message(m) => Drain(rest, parse, output + [m])
  }

  class SseDecoder<M> {
    var buffer: Text
    const parse: Parser<M>

    constructor (parse: Parser<M>)
      ensures buffer == [] && this.parse == parse
    {
      buffer := [];
      this.parse := parse;
    }

    method Push(chunk: Text) returns (result: Result<seq<M>, StreamError>)
      modifies this
      ensures Step(buffer, result) == Drain(old(buffer) + chunk, parse, [])
    {
      buffer := buffer + chunk;
      var output: seq<M> := [];
      ghost var target := Drain(buffer, parse, []);
      var boundary := FindEventBoundary(buffer);
      while boundary.Some?
        invariant boundary == FindEventBoundary(buffer)
        invariant Drain(buffer, parse, output) == target
        decreases |buffer|
      {
        var event := buffer[..boundary.value.position];
        buffer := buffer[boundary.value.position + boundary.value.length..];
        match parse(event) {
          case Malformed =>
            return Err(MalformedResponse);
          case Skip =>
          case Message(m) =>
            output := output + [m];
        }
        boundary := FindEventBoundary(buffer);
      }
      return Ok(output);
    }
  }

  /** A whole stream, pushed chunk by chunk. */
  function Run<M>(buffer: Text, parse: Parser<M>, chunks: seq<Text>): (result: Result<seq<M>, StreamError>)
    decreases |chunks|
  {
    if chunks == [] then Ok([])
    else
      var step := Drain(buffer + chunks[0], parse, []);
      match step.result
      case Err(e) => Err(e)
      case Ok(first) =>
        match Run(step.buffer, parse, chunks[1..])
        case Err(e) => Err(e)
        case Ok(rest) => Ok(first + rest)
  }

  function Concat(chunks: seq<Text>): Text {
    if chunks == [] then [] else chunks[0] + Concat(chunks[1..])
  }

  /** No pair of line feeds starts behind a pair of CRLFs. */
  predicate Unmixed(stream: Text) {
    forall p, q | 0 <= p < q <= |stream| :: !(OccursAt(stream, CRLF2, p) && OccursAt(stream, LF2, q))
  }

  lemma DelimiterBytes(s: Text, at: int)
    ensures OccursAt(s, LF2, at) <==> 0 <= at && at + 2 <= |s| && s[at] == 10 && s[at + 1] == 10
    ensures OccursAt(s, CRLF2, at) <==> 0 <= at && at + 4 <= |s| && s[at] == 13 && s[at + 1] == 10
                                        && s[at + 2] == 13 && s[at + 3] == 10
  {
    if 0 <= at && at + 2 <= |s| {
      assert s[at..at + 2] == LF2 <==> s[at..at + 2][0] == 10 && s[at..at + 2][1] == 10;
    }
    if 0 <= at && at + 4 <= |s| {
      var w := s[at..at + 4];
      assert w == CRLF2 <==> w[0] == 13 && w[1] == 10 && w[2] == 13 && w[3] == 10;
    }
  }

  lemma OccursInPrefix(s: Text, n: nat, pattern: Text, at: int)
    requires n <= |s|
    ensures OccursAt(s[..n], pattern, at) <==> OccursAt(s, pattern, at) && at + |pattern| <= n
  {
    assert s[..n] == s[0..n];
    if OccursAt(s[..n], pattern, at) {
      OccursInSlice(s, 0, n, pattern, at);
    }
    if OccursAt(s, pattern, at) && at + |pattern| <= n {
      OccursWithin(s, 0, n, pattern, at);
    }
  }

  lemma OccursInSuffix(s: Text, n: nat, pattern: Text, at: int)
    requires n <= |s| && 0 <= at
    ensures OccursAt(s[n..], pattern, at) <==> OccursAt(s, pattern, at + n)
  {
    assert s[n..] == s[n..|s|];
    if OccursAt(s[n..], pattern, at) {
      OccursInSlice(s, n, |s|, pattern, at);
    }
    if OccursAt(s, pattern, at + n) {
      OccursWithin(s, n, |s|, pattern, at + n);
    }
  }

  /** In an unmixed stream the boundary seen in a prefix is the boundary of the whole. */
  lemma BoundaryIsFinal(stream: Text, n: nat)
    requires n <= |stream| && Unmixed(stream)
    requires FindEventBoundary(stream[..n]).Some?
    ensures FindEventBoundary(stream) == FindEventBoundary(stream[..n])
  {
    var shown := stream[..n];
    forall at
      ensures OccursAt(shown, LF2, at) <==> OccursAt(stream, LF2, at) && at + 2 <= n
      ensures OccursAt(shown, CRLF2, at) <==> OccursAt(stream, CRLF2, at) && at + 4 <= n
    {
      OccursInPrefix(stream, n, LF2, at);
      OccursInPrefix(stream, n, CRLF2, at);
    }
    var whole, part := FindFrom(stream, LF2, 0), FindFrom(shown, LF2, 0);
    if part.Some? {
      assert OccursAt(stream, LF2, part.value);
      assert whole.Some? && whole.value == part.value;
    } else {
      var p := FindFrom(shown, CRLF2, 0).value;
      assert OccursAt(stream, CRLF2, p);
      if whole.Some? {
        DelimiterBytes(stream, p);
        DelimiterBytes(stream, whole.value);
      }
      var q := FindFrom(stream, CRLF2, 0);
      assert q.Some? && q.value == p;
    }
  }

  lemma UnmixedSuffix(stream: Text, n: nat)
    requires n <= |stream| && Unmixed(stream)
    ensures Unmixed(stream[n..])
  {
    forall p, q | 0 <= p < q <= |stream| - n
      ensures !(OccursAt(stream[n..], CRLF2, p) && OccursAt(stream[n..], LF2, q))
    {
      OccursInSuffix(stream, n, CRLF2, p);
      OccursInSuffix(stream, n, LF2, q);
    }
  }

  /** What a drain has already decoded only goes in front. */
  lemma {:induction false} DrainAppends<M>(buffer: Text, parse: Parser<M>, output: seq<M>)
    ensures var alone, step := Drain(buffer, parse, []), Drain(buffer, parse, output);
            && step.buffer == alone.buffer
            && step.result == match alone.result case Ok(ms) => Ok(output + ms) case Err(e) => Err(e)
    decreases |buffer|
  {
    var boundary := FindEventBoundary(buffer);
    if boundary.Some? {
      var rest := buffer[boundary.value.position + boundary.value.length..];
      match parse(buffer[..boundary.value.position])
      case Malformed =>
      case Skip => DrainAppends(rest, parse, output);
      case Message(m) =>
        DrainAppends(rest, parse, output + [m]);
        DrainAppends(rest, parse, [] + [m]);
        var later := Drain(rest, parse, []).result;
        assert later.Ok? ==> output + [m] + later.value == output + ([] + [m] + later.value);
    } else {
      assert output + [] == output;
    }
  }

  /** Draining a prefix of an unmixed stream is part of draining the stream. */
  lemma {:induction false} DrainSplits<M>(shown: Text, future: Text, parse: Parser<M>, output: seq<M>)
    requires Unmixed(shown + future)
    ensures var step := Drain(shown, parse, output);
            && Unmixed(step.buffer + future)
            && match step.result
               case Err(e) => Drain(shown + future, parse, output).result == Err(e)
               case Ok(done) => Drain(shown + future, parse, output) == Drain(step.buffer + future, parse, done)
    decreases |shown|
  {
    hide Unmixed, FindEventBoundary;
    var whole := shown + future;
    assert whole[..|shown|] == shown;
    var boundary := FindEventBoundary(shown);
    if boundary.Some? {
      BoundaryIsFinal(whole, |shown|);
      var position, end := boundary.value.position, boundary.value.position + boundary.value.length;
      assert whole[end..] == shown[end..] + future;
      assert whole[..position] == shown[..position];
      UnmixedSuffix(whole, end);
      match parse(shown[..position])
      case Malformed =>
      case Skip => DrainSplits(shown[end..], future, parse, output);
      case Message(m) => DrainSplits(shown[end..], future, parse, output + [m]);
    }
  }

  lemma {:induction false} RunIsDrain<M>(buffer: Text, parse: Parser<M>, chunks: seq<Text>)
    requires Unmixed(buffer + Concat(chunks)) && FindEventBoundary(buffer).None?
    ensures Run(buffer, parse, chunks) == Drain(buffer + Concat(chunks), parse, []).result
    decreases |chunks|
  {
    hide Unmixed, FindEventBoundary;
    if chunks == [] {
      assert buffer + [] == buffer;
    } else {
      var future := Concat(chunks[1..]);
      assert buffer + chunks[0] + future == buffer + Concat(chunks);
      DrainSplits(buffer + chunks[0], future, parse, []);
      var step := Drain(buffer + chunks[0], parse, []);
      if step.result.Ok? {
        DrainLeavesNoBoundary(buffer + chunks[0], parse, []);
        RunIsDrain(step.buffer, parse, chunks[1..]);
        DrainAppends(step.buffer + future, parse, step.result.value);
      }
    }
  }

  lemma {:induction false} DrainLeavesNoBoundary<M>(buffer: Text, parse: Parser<M>, output: seq<M>)
    ensures Drain(buffer, parse, output).result.Ok? ==> FindEventBoundary(Drain(buffer, parse, output).buffer).None?
    decreases |buffer|
  {
    hide FindEventBoundary;
    var boundary := FindEventBoundary(buffer);
    if boundary.Some? {
      var rest := buffer[boundary.value.position + boundary.value.length..];
      match parse(buffer[..boundary.value.position])
      case Malformed =>
      case Skip => DrainLeavesNoBoundary(rest, parse, output);
      case Message(m) => DrainLeavesNoBoundary(rest, parse, output + [m]);
    }
  }

  lemma NoBoundaryInNothing()
    ensures FindEventBoundary([]).None?
  {
  }

  /** An unmixed stream decodes to the same messages, or the same failure, however it is cut. */
  lemma UnmixedFramingIsInvariant<M>(parse: Parser<M>, chunks: seq<Text>)
    requires Unmixed(Concat(chunks))
    ensures Run([], parse, chunks) == Run([], parse, [Concat(chunks)])
  {
    hide Unmixed, FindEventBoundary, Drain;
    var stream := Concat(chunks);
    NoBoundaryInNothing();
    assert [] + stream == stream;
    assert Concat([stream]) == stream;
    RunIsDrain([], parse, chunks);
    RunIsDrain([], parse, [stream]);
  }

  /** Keeps every event as it is. */
  function Raw(event: Text): Parsed<Text> {
    Message(event)
  }

  lemma {:induction false} RawNeverFails(buffer: Text, output: seq<Text>)
    ensures Drain(buffer, Raw, output).result.Ok?
    decreases |buffer|
  {
    var boundary := FindEventBoundary(buffer);
    if boundary.Some? {
      RawNeverFails(buffer[boundary.value.position + boundary.value.length..],
                    output + [buffer[..boundary.value.position]]);
    }
  }

  function Events(buffer: Text): seq<Text> {
    RawNeverFails(buffer, []);
    Drain(buffer, Raw, []).result.value
  }

  lemma EventsStep(buffer: Text)
    ensures match FindEventBoundary(buffer)
            case None => Events(buffer) == []
            case Some(b) => Events(buffer) == [buffer[..b.position]] + Events(buffer[b.position + b.length..])
  {
    hide FindEventBoundary;
    var boundary := FindEventBoundary(buffer);
    if boundary.Some? {
      var rest := buffer[boundary.value.position + boundary.value.length..];
      var event := buffer[..boundary.value.position];
      RawNeverFails(rest, []);
      DrainAppends(rest, Raw, [event]);
      assert [] + [event] == [event];
    }
  }

  /** The boundaries that the whole stream and the part up to the first CRLF pair show. */
  lemma MixedBoundaries(stream: Text, p: nat, q: nat) returns (r: nat)
    requires FindFrom(stream, CRLF2, 0) == Some(p) && p < q && OccursAt(stream, LF2, q)
    ensures p + 4 <= |stream| && q <= |stream|
    ensures FindEventBoundary(stream) == Some(Boundary(r, 2)) && r != p
    ensures FindEventBoundary(stream[..p + 4]) == Some(if r < p then Boundary(r, 2) else Boundary(p, 4))
    ensures r < p ==> r + 2 <= p
  {
    hide OccursAt, FindFrom;
    r := FindFrom(stream, LF2, 0).value;
    DelimiterBytes(stream, p);
    DelimiterBytes(stream, q);
    DelimiterBytes(stream, r);
    FirstInPrefix(stream, p + 4, LF2);
    FirstInPrefix(stream, p + 4, CRLF2);
  }

  /** Cutting behind the first CRLF pair yields an event that the whole stream does not have. */
  lemma {:induction false} CutShowsAnotherEvent(stream: Text, p: nat, q: nat)
    requires FindFrom(stream, CRLF2, 0) == Some(p) && p < q && OccursAt(stream, LF2, q)
    ensures !(Events(stream[..p + 4]) <= Events(stream))
    decreases p
  {
    hide FindEventBoundary, OccursAt, Events, FindFrom;
    var r := MixedBoundaries(stream, p, q);
    var shown := stream[..p + 4];
    EventsStep(shown);
    EventsStep(stream);
    if r < p {
      var rest := stream[r + 2..];
      FirstInSuffix(stream, r + 2, CRLF2);
      OccursInSuffix(stream, r + 2, LF2, q - r - 2);
      CutShowsAnotherEvent(rest, p - r - 2, q - r - 2);
      assert shown[r + 2..] == rest[..p - r - 2 + 4];
      assert shown[..r] == stream[..r];
      PrefixTail(stream[..r], Events(shown[r + 2..]), Events(rest));
    } else {
      assert Events(shown)[0] == stream[..p] && Events(stream)[0] == stream[..r];
    }
  }

  lemma PrefixTail(head: Text, part: seq<Text>, whole: seq<Text>)
    ensures [head] + part <= [head] + whole ==> part <= whole
  {
    if [head] + part <= [head] + whole {
      assert ([head] + part)[1..] == part && ([head] + whole)[1..] == whole;
      assert ([head] + whole)[..|part| + 1] == [head] + part;
      assert whole[..|part|] == ([head] + whole)[..|part| + 1][1..];
    }
  }

  /** A first occurrence that fits in a prefix is its first occurrence; one that does not fit is absent. */
  lemma FirstInPrefix(s: Text, n: nat, pattern: Text)
    requires n <= |s|
    ensures var first := FindFrom(s, pattern, 0);
            FindFrom(s[..n], pattern, 0) == if first.Some? && first.value + |pattern| <= n then first else None
  {
    forall at
      ensures OccursAt(s[..n], pattern, at) <==> OccursAt(s, pattern, at) && at + |pattern| <= n
    {
      OccursInPrefix(s, n, pattern, at);
    }
    var first, part := FindFrom(s, pattern, 0), FindFrom(s[..n], pattern, 0);
    if part.Some? {
      assert OccursAt(s, pattern, part.value);
    }
    if first.Some? && first.value + |pattern| <= n {
      assert OccursAt(s[..n], pattern, first.value);
    }
  }

  lemma FirstInSuffix(s: Text, n: nat, pattern: Text)
    requires n <= |s| && FindFrom(s, pattern, 0).Some? && n <= FindFrom(s, pattern, 0).value
    ensures FindFrom(s[n..], pattern, 0) == Some(FindFrom(s, pattern, 0).value - n)
  {
    var first, part := FindFrom(s, pattern, 0), FindFrom(s[n..], pattern, 0);
    OccursInSuffix(s, n, pattern, first.value - n);
    if part.Some? {
      OccursInSuffix(s, n, pattern, part.value);
    }
  }

  /**
   * The exact condition: every way of cutting a stream gives the events of the uncut stream if
   * and only if no pair of line feeds starts behind a pair of CRLFs.
   */
  lemma FramingIsInvariantIffUnmixed(stream: Text)
    ensures Unmixed(stream)
       <==> forall chunks: seq<Text> :: Concat(chunks) == stream ==> Run([], Raw, chunks) == Run([], Raw, [stream])
  {
    hide Unmixed, Run;
    if Unmixed(stream) {
      forall chunks: seq<Text> | Concat(chunks) == stream
        ensures Run([], Raw, chunks) == Run([], Raw, [stream])
      {
        UnmixedFramingIsInvariant(Raw, chunks);
      }
    } else {
      var chunks := MixedStreamsDiffer(stream);
      assert Concat(chunks) == stream;
    }
  }

  lemma MixedStreamsDiffer(stream: Text) returns (chunks: seq<Text>)
    requires !Unmixed(stream)
    ensures Concat(chunks) == stream && Run([], Raw, chunks) != Run([], Raw, [stream])
  {
    hide Run, Events, FindEventBoundary;
    var p0, q :| 0 <= p0 < q <= |stream| && OccursAt(stream, CRLF2, p0) && OccursAt(stream, LF2, q);
    var p := FindFrom(stream, CRLF2, 0).value;
    var head, tail := stream[..p + 4], stream[p + 4..];
    chunks := [head, tail];
    assert chunks[1..] == [tail] && Concat([tail]) == tail + [];
    assert head + tail == stream;
    CutShowsAnotherEvent(stream, p, q);
    RunStartsWithEvents(head, tail);
    RunOfWhole(stream);
  }

  lemma RunOfWhole(stream: Text)
    ensures Run([], Raw, [stream]) == Ok(Events(stream))
  {
    RawNeverFails(stream, []);
    assert [] + stream == stream && Events(stream) + [] == Events(stream);
  }

  lemma RunStartsWithEvents(head: Text, tail: Text)
    ensures Run([], Raw, [head, tail]).Ok? ==> Events(head) <= Run([], Raw, [head, tail]).value
  {
    hide Drain, FindEventBoundary;
    RawNeverFails(head, []);
    assert [] + head == head;
    var step := Drain(head, Raw, []);
    assert [head, tail][1..] == [tail];
    var rest := Run(step.buffer, Raw, [tail]);
    if rest.Ok? {
      assert Run([], Raw, [head, tail]) == Ok(Events(head) + rest.value);
    }
  }
}
