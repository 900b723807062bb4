/** Replacing some stretches of a text and copying the rest, as all package codecs do. */
module Splicing {
  import opened Texts

  /** A stretch of the text; spans are those that may be replaced. */
  datatype Part<T> = Part(raw: seq<T>, span: bool)

  datatype Bounds = Bounds(start: nat, end: nat)

  function Joined<T>(parts: seq<Part<T>>): seq<T> {
    if parts == [] then [] else parts[0].raw + Joined(parts[1..])
  }

  function Spans<T>(parts: seq<Part<T>>): nat {
    if parts == [] then 0 else (if parts[0].span then 1 else 0) + Spans(parts[1..])
  }

  /** Where the spans lie when the parts start at `at`. */
  function BoundsOf<T>(parts: seq<Part<T>>, at: nat): (bounds: seq<Bounds>)
    ensures |bounds| == Spans(parts)
  {
    if parts == [] then []
    else
      (if parts[0].span then [Bounds(at, at + |parts[0].raw|)] else []) + BoundsOf(parts[1..], at + |parts[0].raw|)
  }

  /** The text in which each span that has a replacement is replaced. */
  function Spliced<T>(parts: seq<Part<T>>, replacements: seq<Option<seq<T>>>): seq<T>
    requires |replacements| == Spans(parts)
  {
    if parts == [] then []
    else if parts[0].span then Shown(parts[0].raw, replacements[0]) + Spliced(parts[1..], replacements[1..])
    else parts[0].raw + Spliced(parts[1..], replacements)
  }

  function Shown<T>(raw: seq<T>, replacement: Option<seq<T>>): seq<T> {
    match replacement case Some(r) => r case None => raw
  }

  predicate InOrder(bounds: seq<Bounds>, from: nat, length: nat) {
    if bounds == [] then from <= length
    else from <= bounds[0].start <= bounds[0].end && InOrder(bounds[1..], bounds[0].end, length)
  }

  lemma {:induction false} OrderedFit(bounds: seq<Bounds>, from: nat, length: nat)
    requires InOrder(bounds, from, length)
    ensures from <= length && (bounds != [] ==> bounds[0].end <= length)
    decreases |bounds|
  {
    if bounds != [] {
      OrderedFit(bounds[1..], bounds[0].end, length);
    }
  }

  /** The bytes between the bounds are copied from position `from` on. */
  function Copied<T>(data: seq<T>, from: nat, bounds: seq<Bounds>, replacements: seq<Option<seq<T>>>): seq<T>
    requires |replacements| == |bounds| && InOrder(bounds, from, |data|)
    decreases |bounds|
  {
    if bounds == [] then data[from..]
    else
      OrderedFit(bounds, from, |data|);
      data[from..bounds[0].start] + Shown(data[bounds[0].start..bounds[0].end], replacements[0]) +
      Copied(data, bounds[0].end, bounds[1..], replacements[1..])
  }

  lemma CopiedStep<T>(data: seq<T>, from: nat, first: Bounds, rest: seq<Bounds>, replacements: seq<Option<seq<T>>>)
    requires |replacements| == |rest| + 1 && InOrder([first] + rest, from, |data|)
    ensures InOrder(rest, first.end, |data|) && from <= first.start <= first.end <= |data|
    ensures Copied(data, from, [first] + rest, replacements) ==
              data[from..first.start] + Shown(data[first.start..first.end], replacements[0]) +
              Copied(data, first.end, rest, replacements[1..])
  {
    assert ([first] + rest)[1..] == rest;
    OrderedFit([first] + rest, from, |data|);
  }

  lemma CopiedNothing<T>(data: seq<T>, from: nat)
    requires InOrder([], from, |data|)
    ensures from <= |data| && Copied(data, from, [], []) == data[from..]
  {
  }

  /** The loop over the spans, with the position up to which the text was copied. */
  method Copy<T>(data: seq<T>, bounds: seq<Bounds>, replacements: seq<Option<seq<T>>>) returns (output: seq<T>)
    requires |replacements| == |bounds| && InOrder(bounds, 0, |data|)
    ensures output == Copied(data, 0, bounds, replacements)
  {
    hide Copied, InOrder;
    output := [];
    var cursor: nat := 0;
    assert bounds[0..] == bounds && replacements[0..] == replacements;
    for k := 0 to |bounds|
      invariant InOrder(bounds[k..], cursor, |data|)
      invariant Copied(data, 0, bounds, replacements) == output + Copied(data, cursor, bounds[k..], replacements[k..])
    {
      var span := bounds[k];
      assert bounds[k..] == [span] + bounds[k + 1..] && replacements[k..][1..] == replacements[k + 1..];
      CopiedStep(data, cursor, span, bounds[k + 1..], replacements[k..]);
      output := output + data[cursor..span.start];
      match replacements[k] {
        case Some(r) =>
          output := output + r;
        case None =>
          output := output + data[span.start..span.end];
      }
      cursor := span.end;
    }
    CopiedNothing(data, cursor);
    output := output + data[cursor..];
  }

  lemma JoinedSplits<T>(part: Part<T>, rest: seq<Part<T>>)
    ensures Joined([part] + rest) == part.raw + Joined(rest)
    ensures Spans([part] + rest) == (if part.span then 1 else 0) + Spans(rest)
  {
    assert ([part] + rest)[1..] == rest;
  }

  lemma BoundsSplit<T>(part: Part<T>, rest: seq<Part<T>>, at: nat)
    ensures BoundsOf([part] + rest, at) ==
              (if part.span then [Bounds(at, at + |part.raw|)] else []) + BoundsOf(rest, at + |part.raw|)
    ensures !part.span ==> BoundsOf([part] + rest, at) == BoundsOf(rest, at + |part.raw|)
  {
    assert ([part] + rest)[1..] == rest;
  }

  lemma SplicedSplits<T>(part: Part<T>, rest: seq<Part<T>>, replacements: seq<Option<seq<T>>>)
    requires |replacements| == Spans([part] + rest)
    ensures Spans([part] + rest) == (if part.span then 1 else 0) + Spans(rest)
    ensures Spliced([part] + rest, replacements) ==
              if part.span then Shown(part.raw, replacements[0]) + Spliced(rest, replacements[1..])
              else part.raw + Spliced(rest, replacements)
  {
    assert ([part] + rest)[1..] == rest;
  }

  lemma {:induction false} BoundsInOrder<T>(parts: seq<Part<T>>, at: nat, from: nat, length: nat)
    requires from <= at && at + |Joined(parts)| <= length
    ensures InOrder(BoundsOf(parts, at), from, length)
    decreases |parts|
  {
    if parts != [] {
      var part, rest := parts[0], parts[1..];
      var end := at + |part.raw|;
      assert parts == [part] + rest;
      JoinedSplits(part, rest);
      BoundsSplit(part, rest, at);
      if part.span {
        BoundsInOrder(rest, end, end, length);
        assert BoundsOf(parts, at)[1..] == BoundsOf(rest, end);
      } else {
        BoundsInOrder(rest, end, from, length);
      }
    }
  }

  lemma PartInFront<T>(data: seq<T>, part: Part<T>, rest: seq<Part<T>>, at: nat)
    requires at <= |data| && data[at..] == Joined([part] + rest)
    ensures var end := at + |part.raw|; end <= |data| && data[at..end] == part.raw && data[end..] == Joined(rest)
  {
    hide Joined;
    JoinedSplits(part, rest);
    assert data[at..at + |part.raw|] == data[at..][..|part.raw|];
    assert data[at + |part.raw|..] == data[at..][|part.raw|..];
  }

  lemma JoinShown<T>(before: seq<T>, shown: seq<T>, nothing: seq<T>, rest: seq<T>)
    requires nothing == []
    ensures before + shown + (nothing + rest) == before + (shown + rest)
  {
  }

  lemma JoinOther<T>(data: seq<T>, from: nat, at: nat, end: nat, rest: seq<T>)
    requires from <= at <= end <= |data|
    ensures data[from..end] + rest == data[from..at] + (data[at..end] + rest)
  {
  }

  /** Copying around the spans of a text gives the spliced parts of that text. */
  lemma {:induction false} CopiedFromParts<T>(data: seq<T>, parts: seq<Part<T>>, from: nat, at: nat, replacements: seq<Option<seq<T>>>)
    requires from <= at <= |data| && data[at..] == Joined(parts)
    requires |replacements| == Spans(parts) && InOrder(BoundsOf(parts, at), from, |data|)
    ensures Copied(data, from, BoundsOf(parts, at), replacements) == data[from..at] + Spliced(parts, replacements)
    decreases |parts|
  {
    hide Copied, Spliced, Joined, InOrder, BoundsOf, Spans, Shown;
    if parts == [] {
      NoPartsCopied(data, from, at, replacements);
    } else {
      var part, rest := parts[0], parts[1..];
      var end := at + |part.raw|;
      assert parts == [part] + rest;
      PartInFront(data, part, rest, at);
      BoundsSplit(part, rest, at);
      SplicedSplits(part, rest, replacements);
      if part.span {
        CopiedStep(data, from, Bounds(at, end), BoundsOf(rest, end), replacements);
        CopiedFromParts(data, rest, end, end, replacements[1..]);
        JoinShown(data[from..at], Shown(part.raw, replacements[0]), data[end..end], Spliced(rest, replacements[1..]));
      } else {
        CopiedFromParts(data, rest, from, end, replacements);
        JoinOther(data, from, at, end, Spliced(rest, replacements));
      }
    }
  }

  lemma NoPartsCopied<T>(data: seq<T>, from: nat, at: nat, replacements: seq<Option<seq<T>>>)
    requires from <= at <= |data| && data[at..] == Joined([]) && |replacements| == Spans<T>([])
    ensures BoundsOf<T>([], at) == [] && InOrder([], from, |data|)
    ensures Copied(data, from, [], replacements) == data[from..at] + Spliced([], replacements)
  {
    assert data[from..] == data[from..at] + data[at..];
  }

  /** The copying loop, run on the spans of a text, splices the replacements into it. */
  lemma CopySplices<T>(data: seq<T>, parts: seq<Part<T>>, replacements: seq<Option<seq<T>>>)
    requires Joined(parts) == data && |replacements| == Spans(parts)
    ensures InOrder(BoundsOf(parts, 0), 0, |data|)
    ensures Copied(data, 0, BoundsOf(parts, 0), replacements) == Spliced(parts, replacements)
  {
    hide Copied, Spliced, Joined, InOrder, BoundsOf;
    BoundsInOrder(parts, 0, 0, |data|);
    assert data[0..] == data && data[0..0] == [];
    CopiedFromParts(data, parts, 0, 0, replacements);
    assert [] + Spliced(parts, replacements) == Spliced(parts, replacements);
  }
}
