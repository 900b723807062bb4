/** What a stream of lines means: the messages of the lines that show something, in their order. */
module LineMessages {
  import opened Texts
  import opened LineFraming

  datatype TextLine = TextLine(line: Text, ending: Text)

  /** A line ends at its line feed, and a carriage return in front of that belongs to the ending. */
  predicate IsLine(l: TextLine) {
    && LF !in l.line
    && (l.ending == [CR, LF] || (l.ending == [LF] && !(l.line != [] && l.line[|l.line| - 1] == CR)))
  }

  predicate AreLines(lines: seq<TextLine>) {
    forall k | 0 <= k < |lines| :: IsLine(lines[k])
  }

  function Print(lines: seq<TextLine>): Text {
    if lines == [] then [] else lines[0].line + lines[0].ending + Print(lines[1..])
  }

  /** Some byte is not white space. */
  predicate Shows(line: Text) {
    exists k | 0 <= k < |line| :: line[k] != 32 && line[k] != 9 && line[k] != LF && line[k] != 12 && line[k] != CR
  }

  /** The lines that show something all have their messages, in this order. */
  ghost predicate AreMessages<M>(lines: seq<TextLine>, parse: LineParser<M>, messages: seq<M>) {
    if lines == [] then messages == []
    else if !Shows(lines[0].line) then AreMessages(lines[1..], parse, messages)
    else messages != [] && parse(lines[0].line) == Some(messages[0]) && AreMessages(lines[1..], parse, messages[1..])
  }

  lemma {:induction false} LineIsTaken(line: Text, rest: Text, current: Text)
    requires LF !in line
    ensures Lines(line + [LF] + rest, current) == Split([current + line] + Lines(rest, []).lines, Lines(rest, []).rest)
    decreases |line|
  {
    var s := line + [LF] + rest;
    if line == [] {
      assert s[1..] == rest && current + line == current;
    } else {
      assert s[1..] == line[1..] + [LF] + rest;
      LineIsTaken(line[1..], rest, current + [line[0]]);
      assert current + [line[0]] + line[1..] == current + line;
    }
  }

  lemma {:induction false} RestIsKept(rest: Text, current: Text)
    requires LF !in rest
    ensures Lines(rest, current) == Split([], current + rest)
    decreases |rest|
  {
    if rest == [] {
      assert current + rest == current;
    } else {
      RestIsKept(rest[1..], current + [rest[0]]);
      assert current + [rest[0]] + rest[1..] == current + rest;
    }
  }

  function Raw(l: TextLine): Text
    requires IsLine(l)
  {
    l.line + l.ending[..|l.ending| - 1]
  }

  lemma RawChomps(l: TextLine)
    requires IsLine(l)
    ensures LF !in Raw(l) && Chomp(Raw(l)) == l.line && l.line + l.ending == Raw(l) + [LF]
  {
    if l.ending == [CR, LF] {
      assert l.ending[..1] == [CR];
      assert Raw(l)[..|l.line|] == l.line;
    } else {
      assert l.ending[..0] == [];
      assert Raw(l) == l.line;
    }
  }

  lemma BlankIs(line: Text)
    ensures IsBlank(line) <==> !Shows(line)
  {
  }

  lemma {:induction false} LinesAreSplit(lines: seq<TextLine>, rest: Text)
    requires AreLines(lines) && LF !in rest
    ensures var split := Lines(Print(lines) + rest, []);
            && split.rest == rest && |split.lines| == |lines|
            && forall k | 0 <= k < |lines| :: split.lines[k] == Raw(lines[k])
    decreases |lines|
  {
    hide Lines, Raw, IsLine;
    if lines == [] {
      assert Print(lines) + rest == rest && [] + rest == rest;
      RestIsKept(rest, []);
    } else {
      var first, more := lines[0], lines[1..];
      LinesAreSplit(more, rest);
      RawChomps(first);
      var tail := Print(more) + rest;
      assert Print(lines) + rest == first.line + first.ending + tail == Raw(first) + [LF] + tail;
      LineIsTaken(Raw(first), tail, []);
      assert [] + Raw(first) == Raw(first);
    }
  }

  lemma {:induction false} DecodeIff<M>(lines: seq<TextLine>, raws: seq<Text>, parse: LineParser<M>, messages: seq<M>)
    requires AreLines(lines) && |raws| == |lines| && forall k | 0 <= k < |lines| :: raws[k] == Raw(lines[k])
    ensures Decode(raws, parse) == Ok(messages) <==> AreMessages(lines, parse, messages)
    decreases |lines|
  {
    if lines != [] {
      var first := lines[0];
      RawChomps(first);
      BlankIs(first.line);
      if !Shows(first.line) {
        DecodeIff(lines[1..], raws[1..], parse, messages);
      } else if messages != [] && parse(first.line) == Some(messages[0]) {
        DecodeIff(lines[1..], raws[1..], parse, messages[1..]);
        assert messages == [messages[0]] + messages[1..];
        DecodeFront(raws, parse, messages);
      }
    }
  }

  lemma DecodeFront<M>(raws: seq<Text>, parse: LineParser<M>, messages: seq<M>)
    requires raws != [] && messages != [] && !IsBlank(Chomp(raws[0])) && parse(Chomp(raws[0])) == Some(messages[0])
    ensures Decode(raws, parse) == Ok(messages) <==> Decode(raws[1..], parse) == Ok(messages[1..])
  {
    var rest := Decode(raws[1..], parse);
    if rest.Ok? {
      assert ([messages[0]] + rest.value)[1..] == rest.value;
    }
    assert messages == [messages[0]] + messages[1..];
  }

  /**
   * A stream of lines, and perhaps an open one behind them, is decoded to these messages exactly when
   * they are those of the lines that show something, and of the open line whatever it shows.
   */
  lemma StreamIffMessages<M>(lines: seq<TextLine>, rest: Text, parse: LineParser<M>, messages: seq<M>)
    requires AreLines(lines) && LF !in rest
    ensures DecodeStream(Print(lines) + rest, parse) == Ok(messages) <==>
              if rest == [] then AreMessages(lines, parse, messages)
              else messages != [] && parse(rest) == Some(messages[|messages| - 1]) && AreMessages(lines, parse, messages[..|messages| - 1])
  {
    hide Lines, Decode, AreMessages, DecodeRest, LineFraming.Join;
    LinesAreSplit(lines, rest);
    var raws := Lines(Print(lines) + rest, []).lines;
    if rest == [] {
      DecodeIff(lines, raws, parse, messages);
    } else if messages != [] {
      DecodeIff(lines, raws, parse, messages[..|messages| - 1]);
    }
    JoinIff(Decode(raws, parse), rest, parse, messages);
  }

  /** The open line's message comes last. */
  lemma JoinIff<M>(first: Result<seq<M>, StreamError>, rest: Text, parse: LineParser<M>, messages: seq<M>)
    ensures LineFraming.Join(first, DecodeRest(rest, parse)) == Ok(messages) <==>
              if rest == [] then first == Ok(messages)
              else messages != [] && parse(rest) == Some(messages[|messages| - 1]) && first == Ok(messages[..|messages| - 1])
  {
    if rest == [] {
      assert first.Ok? ==> first.value + [] == first.value;
    } else if first.Ok? && parse(rest).Some? {
      var whole := first.value + [parse(rest).value];
      assert whole[..|whole| - 1] == first.value;
    }
    if messages != [] {
      assert messages == messages[..|messages| - 1] + [messages[|messages| - 1]];
    }
  }
}
