/** What framed streams mean: the blocks between delimiters, and the lines. */
module EventBlocks {
  import opened Texts
  import opened EventFraming

  /** An event's bytes and the empty line behind them. */
  datatype Block = Block(event: Text, delimiter: Text)

  predicate HoldsDelimiter(s: Text, before: nat) {
    exists at | 0 <= at < before :: OccursAt(s, LF2, at) || OccursAt(s, CRLF2, at)
  }

  /** The delimiter is the first one in the block. */
  predicate IsBlock(b: Block) {
    (b.delimiter == LF2 || b.delimiter == CRLF2) && !HoldsDelimiter(b.event + b.delimiter, |b.event|)
  }

  function Print(blocks: seq<Block>): Text {
    if blocks == [] then [] else blocks[0].event + blocks[0].delimiter + Print(blocks[1..])
  }

  /** The messages of the events in their order, up to the first malformed one. */
  function Messages<M>(blocks: seq<Block>, parse: Parser<M>): Result<seq<M>, StreamError> {
    if blocks == [] then Ok([])
    else
      match parse(blocks[0].event)
      case Malformed => Err(MalformedResponse)
      case Skip => Messages(blocks[1..], parse)
      case Message(m) =>
        match Messages(blocks[1..], parse)
        case Err(e) => Err(e)
        case Ok(rest) => Ok([m] + rest)
  }

  predicate AreBlocks(blocks: seq<Block>) {
    forall k | 0 <= k < |blocks| :: IsBlock(blocks[k])
  }

  lemma NoOccurrence(s: Text, n: nat, pattern: Text, at: int)
    requires n <= |s| && (pattern == LF2 || pattern == CRLF2) && 0 <= at && at + |pattern| <= n
    requires !OccursAt(s[..n], pattern, at)
    ensures !OccursAt(s, pattern, at)
  {
    OccursInPrefix(s, n, pattern, at);
  }

  /** The scanner finds the delimiter of the first block. */
  lemma BlockIsFound(b: Block, rest: Text)
    requires IsBlock(b) && Unmixed(b.event + b.delimiter + rest)
    ensures FindEventBoundary(b.event + b.delimiter + rest) == Some(Boundary(|b.event|, |b.delimiter|))
  {
    var s, front := b.event + b.delimiter + rest, b.event + b.delimiter;
    var p := |b.event|;
    assert s[..|front|] == front;
    assert front[p..p + |b.delimiter|] == b.delimiter;
    assert OccursAt(front, b.delimiter, p);
    OccursInPrefix(s, |front|, b.delimiter, p);
    forall at | 0 <= at < p
      ensures !OccursAt(s, b.delimiter, at)
    {
      EarlierIsNone(b, rest, at);
    }
    if b.delimiter == CRLF2 {
      forall at: nat
        ensures !OccursAt(s, LF2, at)
      {
        DelimiterBytes(s, p);
        DelimiterBytes(s, at);
        if at < p {
          EarlierIsNone(b, rest, at);
        }
      }
    }
  }

  lemma EarlierIsNone(b: Block, rest: Text, at: nat)
    requires IsBlock(b) && at < |b.event|
    ensures var s := b.event + b.delimiter + rest;
            !OccursAt(s, b.delimiter, at) && (b.delimiter == CRLF2 ==> !OccursAt(s, LF2, at))
  {
    var s, front := b.event + b.delimiter + rest, b.event + b.delimiter;
    assert s[..|front|] == front;
    NoOccurrence(s, |front|, b.delimiter, at);
    if b.delimiter == CRLF2 {
      NoOccurrence(s, |front|, LF2, at);
    }
  }

  /** A stream of blocks is decoded to their messages, and what lies behind the last delimiter is kept. */
  lemma {:induction false} BlocksAreDecoded<M>(blocks: seq<Block>, rest: Text, parse: Parser<M>)
    requires AreBlocks(blocks) && !HoldsDelimiter(rest, |rest|) && Unmixed(Print(blocks) + rest)
    ensures var step := Drain(Print(blocks) + rest, parse, []);
            step.result == Messages(blocks, parse) && (step.result.Ok? ==> step.buffer == rest)
    decreases |blocks|
  {
    hide IsBlock, Unmixed, FindEventBoundary;
    if blocks == [] {
      assert Print(blocks) + rest == rest;
      NothingIsFound(rest);
    } else {
      var b, more := blocks[0], blocks[1..];
      var front, tail := b.event + b.delimiter, Print(more) + rest;
      var s := front + tail;
      assert s == Print(blocks) + rest;
      BlockIsFound(b, tail);
      assert s[|front|..] == tail && s[..|b.event|] == b.event;
      UnmixedSuffix(s, |front|);
      BlocksAreDecoded(more, rest, parse);
      match parse(b.event)
      case Malformed =>
      case Skip =>
      case Message(m) =>
        DrainAppends(tail, parse, [m]);
        assert [] + [m] == [m];
    }
  }

  lemma NothingIsFound(rest: Text)
    requires !HoldsDelimiter(rest, |rest|)
    ensures FindEventBoundary(rest) == None
  {
    forall at: nat
      ensures !OccursAt(rest, LF2, at) && !OccursAt(rest, CRLF2, at)
    {
      DelimiterBytes(rest, at);
    }
  }

  /** Every unmixed stream is a sequence of blocks and a rest. */
  lemma {:induction false} StreamIsBlocks(stream: Text) returns (blocks: seq<Block>, rest: Text)
    requires Unmixed(stream)
    ensures AreBlocks(blocks) && !HoldsDelimiter(rest, |rest|) && stream == Print(blocks) + rest
    decreases |stream|
  {
    hide IsBlock, Unmixed, FindEventBoundary;
    var boundary := FindEventBoundary(stream);
    if boundary.None? {
      blocks, rest := [], stream;
      NothingMeansNone(stream);
    } else {
      var p, n := boundary.value.position, boundary.value.length;
      var b := Block(stream[..p], stream[p..p + n]);
      BoundaryIsBlock(stream);
      UnmixedSuffix(stream, p + n);
      var more;
      more, rest := StreamIsBlocks(stream[p + n..]);
      blocks := [b] + more;
      assert blocks[1..] == more;
      assert forall k | 0 <= k < |more| :: blocks[k + 1] == more[k];
      assert stream == stream[..p] + stream[p..p + n] + stream[p + n..];
    }
  }

  lemma NothingMeansNone(stream: Text)
    requires FindEventBoundary(stream).None?
    ensures !HoldsDelimiter(stream, |stream|)
  {
  }

  lemma BoundaryIsBlock(stream: Text)
    requires Unmixed(stream) && FindEventBoundary(stream).Some?
    ensures var b := FindEventBoundary(stream).value;
            IsBlock(Block(stream[..b.position], stream[b.position..b.position + b.length]))
  {
    var p, n := FindEventBoundary(stream).value.position, FindEventBoundary(stream).value.length;
    var block := Block(stream[..p], stream[p..p + n]);
    var front := block.event + block.delimiter;
    assert front == stream[..p + n];
    assert OccursAt(stream, block.delimiter, p);
    forall at | 0 <= at < p
      ensures !OccursAt(front, LF2, at) && !OccursAt(front, CRLF2, at)
    {
      OccursInPrefix(stream, p + n, LF2, at);
      OccursInPrefix(stream, p + n, CRLF2, at);
    }
  }
}
