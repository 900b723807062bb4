/** Replacing structured spans of a source text by markers. */
module Protection {
  import opened Texts
  import opened Markers
  import opened Restoring
  import opened Weaving

  /** A stretch of the source that some scanner or glossary rule wants to protect. */
  datatype Candidate = Candidate(start: nat, end: nat, replacement: Text, priority: int)

  datatype ProtectedSource = ProtectedSource(text: Text, spans: seq<ProtectedSpan>)

  predicate InBounds(source: Text, candidates: seq<Candidate>) {
    forall k | 0 <= k < |candidates| :: candidates[k].start <= candidates[k].end <= |source|
  }

  // ---------------------------------------------------------------------------------------------
  // Choosing among overlapping candidates.

  /** Earlier start first, then higher priority, then greater length. */
  predicate NotAfter(a: Candidate, b: Candidate) {
    || a.start < b.start
    || (a.start == b.start && (a.priority > b.priority || (a.priority == b.priority && a.end - a.start >= b.end - b.start)))
  }

  /** Stable: `c` goes in front of the first element it is not after. */
  function Insert(c: Candidate, sorted: seq<Candidate>): seq<Candidate> {
    if sorted == [] || NotAfter(c, sorted[0]) then [c] + sorted else [sorted[0]] + Insert(c, sorted[1..])
  }

  function Sort(candidates: seq<Candidate>): seq<Candidate> {
    if candidates == [] then [] else Insert(candidates[0], Sort(candidates[1..]))
  }

  /** Keeps each non-empty candidate that starts at or behind the end of the last one kept. */
  function Select(sorted: seq<Candidate>, cursor: nat): seq<Candidate> {
    if sorted == [] then []
    else if sorted[0].start < sorted[0].end && cursor <= sorted[0].start
    then [sorted[0]] + Select(sorted[1..], sorted[0].end)
    else Select(sorted[1..], cursor)
  }

  ghost predicate Ordered(cs: seq<Candidate>) {
    forall i, j :: 0 <= i < j < |cs| ==> NotAfter(cs[i], cs[j])
  }

  lemma {:induction false} InsertAdds(c: Candidate, sorted: seq<Candidate>)
    ensures multiset(Insert(c, sorted)) == multiset(sorted) + multiset{c}
  {
    if sorted != [] {
      assert sorted == [sorted[0]] + sorted[1..];
      InsertAdds(c, sorted[1..]);
    }
  }

  lemma NotAfterOrders(c: Candidate)
    ensures forall b | !NotAfter(c, b) :: NotAfter(b, c)
    ensures forall a, b | NotAfter(c, a) && NotAfter(a, b) :: NotAfter(c, b)
  {
  }

  lemma {:induction false} InsertKeepsOrder(c: Candidate, sorted: seq<Candidate>)
    requires Ordered(sorted)
    ensures Ordered(Insert(c, sorted))
  {
    hide NotAfter;
    NotAfterOrders(c);
    if sorted != [] && !NotAfter(c, sorted[0]) {
      InsertKeepsOrder(c, sorted[1..]);
      InsertAdds(c, sorted[1..]);
      var rest := Insert(c, sorted[1..]);
      forall j | 0 <= j < |rest|
        ensures NotAfter(sorted[0], rest[j])
      {
        assert rest[j] in multiset(rest);
      }
    }
  }

  lemma {:induction false} SortIsOrdered(cs: seq<Candidate>)
    ensures Ordered(Sort(cs)) && multiset(Sort(cs)) == multiset(cs)
  {
    if cs != [] {
      SortIsOrdered(cs[1..]);
      InsertKeepsOrder(cs[0], Sort(cs[1..]));
      InsertAdds(cs[0], Sort(cs[1..]));
      assert cs == [cs[0]] + cs[1..];
    }
  }

  /** Non-empty ranges in order, each starting at or behind the end of the one before. */
  ghost predicate Disjoint(selected: seq<Candidate>, cursor: nat, length: nat)
    decreases |selected|
  {
    selected == [] || (cursor <= selected[0].start < selected[0].end <= length
                       && Disjoint(selected[1..], selected[0].end, length))
  }

  predicate Overlaps(a: Candidate, b: Candidate) {
    a.start < b.end && b.start < a.end
  }

  /**
   * The choice is disjoint and drawn from the candidates, and it is greedy: a non-empty candidate
   * that was passed over starts behind `cursor` only if it overlaps a chosen one that was not
   * after it.
   */
  lemma {:induction false} SelectIsGreedy(sorted: seq<Candidate>, cursor: nat, length: nat)
    requires Ordered(sorted)
    requires forall k :: 0 <= k < |sorted| ==> sorted[k].start <= sorted[k].end <= length
    ensures var chosen := Select(sorted, cursor);
            && Disjoint(chosen, cursor, length)
            && (forall c :: c in chosen ==> c in sorted)
            && forall c :: c in sorted && c.start < c.end && cursor <= c.start && c !in chosen ==>
                 exists d :: d in chosen && NotAfter(d, c) && Overlaps(d, c)
    decreases |sorted|
  {
    if sorted != [] {
      var head, tail := sorted[0], sorted[1..];
      assert sorted == [head] + tail;
      if head.start < head.end && cursor <= head.start {
        SelectIsGreedy(tail, head.end, length);
        var rest := Select(tail, head.end);
        var chosen := Select(sorted, cursor);
        assert chosen == [head] + rest;
        forall c | c in sorted && c.start < c.end && cursor <= c.start && c !in chosen
          ensures exists d :: d in chosen && NotAfter(d, c) && Overlaps(d, c)
        {
          assert c in tail;
          if c.start < head.end {
            assert head in chosen && NotAfter(head, c) && Overlaps(head, c);
          } else {
            var d :| d in rest && NotAfter(d, c) && Overlaps(d, c);
            assert d in chosen;
          }
        }
      } else {
        SelectIsGreedy(tail, cursor, length);
      }
    }
  }

  /** The candidates that get protected. */
  function Chosen(candidates: seq<Candidate>): seq<Candidate> {
    Select(Sort(candidates), 0)
  }

  lemma ChosenIsGreedy(candidates: seq<Candidate>, source: Text)
    requires InBounds(source, candidates)
    ensures var chosen := Chosen(candidates);
            && Disjoint(chosen, 0, |source|)
            && (forall c :: c in chosen ==> c in candidates)
            && forall c :: c in candidates && c.start < c.end && c !in chosen ==>
                 exists d :: d in chosen && NotAfter(d, c) && Overlaps(d, c)
  {
    hide Ordered, NotAfter, Sort;
    SortIsOrdered(candidates);
    var sorted := Sort(candidates);
    SameElements(sorted, candidates);
    forall k | 0 <= k < |sorted|
      ensures sorted[k].start <= sorted[k].end <= |source|
    {
      assert sorted[k] in sorted && sorted[k] in candidates;
    }
    SelectIsGreedy(sorted, 0, |source|);
  }

  lemma SameElements(a: seq<Candidate>, b: seq<Candidate>)
    requires multiset(a) == multiset(b)
    ensures forall c :: c in a <==> c in b
  {
    forall c
      ensures c in a <==> c in b
    {
      assert c in multiset(a) <==> c in multiset(b);
    }
  }

  // ---------------------------------------------------------------------------------------------
  // Markers for the chosen spans.

  function Digits(n: nat): (d: Text)
    ensures |d| >= 1 && forall k :: 0 <= k < |d| ==> IsDigit(d[k])
  {
    if n < 10 then [48 + n] else Digits(n / 10) + [48 + n % 10]
  }

  function Value(d: Text): nat
    requires forall k :: 0 <= k < |d| ==> IsDigit(d[k])
  {
    if d == [] then 0
    else
      var last := d[|d| - 1];
      assert IsDigit(last);
      Value(d[..|d| - 1]) * 10 + (last as int - 48)
  }

  lemma {:induction false} DigitsDenote(n: nat)
    ensures Value(Digits(n)) == n
  {
    if n < 10 {
      assert Digits(n)[..0] == [];
    } else {
      DigitsDenote(n / 10);
      assert Digits(n)[..|Digits(n)| - 1] == Digits(n / 10);
    }
  }

  /** Underscores are appended until the source does not contain the token. */
  function Lengthen(token: Text, source: Text): Text
    decreases |source| + 1 - |token|
  {
    if Contains(source, token) then Lengthen(token + [UNDERSCORE], source) else token
  }

  function MarkerFor(index: nat, source: Text): Text {
    Lengthen(PREFIX + Digits(index) + [UNDERSCORE, UNDERSCORE], source)
  }

  ghost predicate HasIndex(token: Text, index: nat) {
    IsMarker(token) && Head(token) == PREFIX + Digits(index) + [UNDERSCORE]
  }

  lemma {:induction false} LengthenKeepsIndex(token: Text, source: Text, index: nat)
    requires HasIndex(token, index)
    ensures HasIndex(Lengthen(token, source), index)
    ensures !Contains(source, Lengthen(token, source))
    decreases |source| + 1 - |token|
  {
    if Contains(source, token) {
      var longer := token + [UNDERSCORE];
      var d := BodyEnd(token, 23);
      BodyEndIs(longer, 23, d);
      assert longer[..23] == token[..23];
      assert longer[..d + 1] == token[..d + 1];
      LengthenKeepsIndex(longer, source, index);
    }
  }

  lemma BodyEndIs(t: Text, from: nat, d: nat)
    requires from <= d < |t| && t[d] == UNDERSCORE
    requires forall k :: from <= k < d ==> t[k] != UNDERSCORE
    ensures BodyEnd(t, from) == d
  {
    var e := BodyEnd(t, from);
    assert !(e < d) && !(d < e);
  }

  lemma MarkerForHasIndex(index: nat, source: Text)
    ensures HasIndex(MarkerFor(index, source), index)
    ensures !Contains(source, MarkerFor(index, source))
  {
    var d := Digits(index);
    var token := PREFIX + d + [UNDERSCORE, UNDERSCORE];
    BodyEndIs(token, 23, 23 + |d|);
    assert token[..23] == PREFIX;
    assert token[..23 + |d| + 1] == PREFIX + d + [UNDERSCORE];
    LengthenKeepsIndex(token, source, index);
  }

  /** A head determines the index it was made from. */
  lemma HeadsDetermineIndex(t: Text, i: nat, u: Text, j: nat)
    requires HasIndex(t, i) && HasIndex(u, j) && Head(t) == Head(u)
    ensures i == j
  {
    DigitsDenote(i);
    DigitsDenote(j);
    assert Digits(i) == Head(t)[23..|Head(t)| - 1] == Digits(j);
  }

  function SpanFor(source: Text, c: Candidate, index: nat): ProtectedSpan
    requires c.start <= c.end <= |source|
  {
    ProtectedSpan(MarkerFor(index, source), source[c.start..c.end], c.replacement)
  }

  predicate Usable(source: Text, chosen: seq<Candidate>, cursor: nat)
    decreases |chosen|
  {
    cursor <= |source| && (chosen == [] || (cursor <= chosen[0].start < chosen[0].end <= |source|
                                            && Usable(source, chosen[1..], chosen[0].end)))
  }

  lemma {:induction false} DisjointIsUsable(source: Text, chosen: seq<Candidate>, cursor: nat)
    requires cursor <= |source|
    ensures Disjoint(chosen, cursor, |source|) ==> Usable(source, chosen, cursor)
    decreases |chosen|
  {
    if chosen != [] && cursor <= chosen[0].start < chosen[0].end <= |source| {
      DisjointIsUsable(source, chosen[1..], chosen[0].end);
    }
  }

  /** The spans, and the text between them, for the part of the source behind `cursor`. */
  function SpansFrom(source: Text, chosen: seq<Candidate>, cursor: nat, index: nat): (spans: seq<ProtectedSpan>)
    requires Usable(source, chosen, cursor)
    ensures |spans| == |chosen|
    decreases |chosen|
  {
    if chosen == [] then []
    else [SpanFor(source, chosen[0], index)] + SpansFrom(source, chosen[1..], chosen[0].end, index + 1)
  }

  function GapsFrom(source: Text, chosen: seq<Candidate>, cursor: nat): (gaps: seq<Text>)
    requires Usable(source, chosen, cursor)
    ensures |gaps| == |chosen| + 1
    decreases |chosen|
  {
    if chosen == [] then [source[cursor..]]
    else [source[cursor..chosen[0].start]] + GapsFrom(source, chosen[1..], chosen[0].end)
  }

  lemma {:induction false} SpansAreIndexed(source: Text, chosen: seq<Candidate>, cursor: nat, index: nat)
    requires Usable(source, chosen, cursor)
    ensures forall k :: 0 <= k < |chosen| ==> HasIndex(SpansFrom(source, chosen, cursor, index)[k].token, index + k)
    decreases |chosen|
  {
    if chosen != [] {
      MarkerForHasIndex(index, source);
      SpansAreIndexed(source, chosen[1..], chosen[0].end, index + 1);
    }
  }

  lemma SpansAreWellFormed(source: Text, chosen: seq<Candidate>)
    requires Usable(source, chosen, 0)
    ensures WellFormed(SpansFrom(source, chosen, 0, 0))
  {
    hide HasIndex, IsMarker, Head;
    var spans := SpansFrom(source, chosen, 0, 0);
    SpansAreIndexed(source, chosen, 0, 0);
    forall i | 0 <= i < |spans|
      ensures Marked(spans, i)
    {
      IndexedIsMarker(spans[i].token, i);
    }
    forall i, j | 0 <= i < j < |spans|
      ensures Apart(spans, i, j)
    {
      assert Marked(spans, i) && Marked(spans, j);
      if Head(spans[i].token) == Head(spans[j].token) {
        HeadsDetermineIndex(spans[i].token, i, spans[j].token, j);
      }
    }
  }

  lemma IndexedIsMarker(token: Text, index: nat)
    requires HasIndex(token, index)
    ensures IsMarker(token)
  {
  }

  function AllTokens(spans: seq<ProtectedSpan>): (texts: seq<Text>)
    ensures |texts| == |spans|
  {
    seq(|spans|, k requires 0 <= k < |spans| => spans[k].token)
  }

  function AllSources(spans: seq<ProtectedSpan>): (texts: seq<Text>)
    ensures |texts| == |spans|
  {
    seq(|spans|, k requires 0 <= k < |spans| => spans[k].source)
  }

  function AllReplacements(spans: seq<ProtectedSpan>): (texts: seq<Text>)
    ensures |texts| == |spans|
  {
    seq(|spans|, k requires 0 <= k < |spans| => spans[k].replacement)
  }

  /** The protected form of `source` when the scanners propose `candidates`. */
  function Protect(source: Text, candidates: seq<Candidate>): (p: ProtectedSource)
    requires InBounds(source, candidates)
    ensures WellFormed(p.spans)
  {
    ChosenIsGreedy(candidates, source);
    DisjointIsUsable(source, Chosen(candidates), 0);
    var chosen := Chosen(candidates);
    var spans := SpansFrom(source, chosen, 0, 0);
    SpansAreWellFormed(source, chosen);
    ProtectedSource(Weave(GapsFrom(source, chosen, 0), AllTokens(spans)), spans)
  }

  /** Without markers: the gaps and the protected stretches make up the source again. */
  lemma {:induction false} GapsAndSourcesTile(source: Text, chosen: seq<Candidate>, cursor: nat, index: nat)
    requires Usable(source, chosen, cursor)
    ensures Weave(GapsFrom(source, chosen, cursor), AllSources(SpansFrom(source, chosen, cursor, index))) == source[cursor..]
    decreases |chosen|
  {
    if chosen != [] {
      var spans := SpansFrom(source, chosen, cursor, index);
      GapsAndSourcesTile(source, chosen[1..], chosen[0].end, index + 1);
      assert AllSources(spans)[1..] == AllSources(spans[1..]);
      assert source[cursor..] == source[cursor..chosen[0].start] + source[chosen[0].start..chosen[0].end] + source[chosen[0].end..];
    }
  }

  /** What one chosen span adds to the spans and to the text. */
  lemma AssembleStep(source: Text, chosen: seq<Candidate>, cursor: nat, index: nat)
    requires Usable(source, chosen, cursor) && chosen != []
    ensures SpansFrom(source, chosen, cursor, index)
         == [SpanFor(source, chosen[0], index)] + SpansFrom(source, chosen[1..], chosen[0].end, index + 1)
    ensures Weave(GapsFrom(source, chosen, cursor), AllTokens(SpansFrom(source, chosen, cursor, index)))
         == source[cursor..chosen[0].start] + MarkerFor(index, source)
            + Weave(GapsFrom(source, chosen[1..], chosen[0].end),
                    AllTokens(SpansFrom(source, chosen[1..], chosen[0].end, index + 1)))
  {
    var spans := SpansFrom(source, chosen, cursor, index);
    assert AllTokens(spans)[1..] == AllTokens(spans[1..]);
  }

  method SelectDisjoint(sorted: seq<Candidate>) returns (selected: seq<Candidate>)
    ensures selected == Select(sorted, 0)
  {
    selected := [];
    var last: nat := 0;
    for k := 0 to |sorted|
      invariant Select(sorted, 0) == selected + Select(sorted[k..], last)
    {
      var candidate := sorted[k];
      assert sorted[k..] == [candidate] + sorted[k + 1..];
      if candidate.start < candidate.end && last <= candidate.start {
        selected := selected + [candidate];
        last := candidate.end;
      }
    }
  }

  method LengthenToken(token: Text, source: Text) returns (longer: Text)
    ensures longer == Lengthen(token, source)
  {
    longer := token;
    while Contains(source, longer)
      invariant Lengthen(longer, source) == Lengthen(token, source)
      decreases |source| + 1 - |longer|
    {
      longer := longer + [UNDERSCORE];
    }
  }

  method BuildProtectedSource(source: Text, candidates: seq<Candidate>) returns (p: ProtectedSource)
    requires InBounds(source, candidates)
    ensures p == Protect(source, candidates)
  {
    hide Sort, Select, SpansFrom, GapsFrom, Weave, WellFormed, Lengthen, Digits, AllTokens;
    var selected := SelectDisjoint(Sort(candidates));
    assert selected == Chosen(candidates);
    ChosenIsGreedy(candidates, source);
    DisjointIsUsable(source, selected, 0);
    var text: Text := [];
    var spans: seq<ProtectedSpan> := [];
    var cursor: nat := 0;
    ghost var all := SpansFrom(source, selected, 0, 0);
    ghost var whole := Weave(GapsFrom(source, selected, 0), AllTokens(all));
    assert selected[0..] == selected;
    for k := 0 to |selected|
      invariant Usable(source, selected[k..], cursor)
      invariant all == spans + SpansFrom(source, selected[k..], cursor, k)
      invariant whole == text + Weave(GapsFrom(source, selected[k..], cursor),
                                      AllTokens(SpansFrom(source, selected[k..], cursor, k)))
    {
      var candidate := selected[k];
      assert selected[k..][0] == candidate && selected[k..][1..] == selected[k + 1..];
      AssembleStep(source, selected[k..], cursor, k);
      var token := LengthenToken(PREFIX + Digits(k) + [UNDERSCORE, UNDERSCORE], source);
      ghost var later := SpansFrom(source, selected[k + 1..], candidate.end, k + 1);
      ExtendProgress(text, source[cursor..candidate.start], token,
                     Weave(GapsFrom(source, selected[k + 1..], candidate.end), AllTokens(later)));
      assert spans + ([SpanFor(source, candidate, k)] + later) == spans + [SpanFor(source, candidate, k)] + later;
      text := text + source[cursor..candidate.start] + token;
      spans := spans + [ProtectedSpan(token, source[candidate.start..candidate.end], candidate.replacement)];
      cursor := candidate.end;
    }
    text := text + source[cursor..];
    NothingLeft(source, cursor, |selected|);
    p := ProtectedSource(text, spans);
  }

  lemma ExtendProgress(done: Text, gap: Text, token: Text, rest: Text)
    ensures done + (gap + token + rest) == done + gap + token + rest
  {
  }

  lemma NothingLeft(source: Text, cursor: nat, index: nat)
    requires cursor <= |source|
    ensures SpansFrom(source, [], cursor, index) == []
    ensures Weave(GapsFrom(source, [], cursor), AllTokens([])) == source[cursor..]
  {
  }
}
