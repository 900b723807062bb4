/** Which candidates are protected and what their spans carry, said over positions and priorities. */
module ProtectedSpans {
  import opened Texts
  import opened Markers
  import opened Restoring
  import opened Weaving
  import opened Protection

  /** Earlier start; then higher priority; then greater length. */
  predicate Beats(a: Candidate, b: Candidate) {
    || a.start < b.start
    || (a.start == b.start && a.priority > b.priority)
    || (a.start == b.start && a.priority == b.priority && a.end > b.end)
  }

  predicate Ties(a: Candidate, b: Candidate) {
    a.start == b.start && a.priority == b.priority && a.end == b.end
  }

  /** The candidates that tie with `key`, in their order. */
  function Tied(cs: seq<Candidate>, key: Candidate): (r: seq<Candidate>)
    ensures forall c :: c in r <==> c in cs && Ties(c, key)
  {
    if cs == [] then [] else (if Ties(cs[0], key) then [cs[0]] else []) + Tied(cs[1..], key)
  }

  lemma TiedSplits(first: Candidate, rest: seq<Candidate>, key: Candidate)
    ensures Tied([first] + rest, key) == (if Ties(first, key) then [first] else []) + Tied(rest, key)
  {
    assert ([first] + rest)[1..] == rest;
  }

  lemma LaterDoesNotTie(c: Candidate, first: Candidate, key: Candidate)
    requires c.start <= c.end && first.start <= first.end && !NotAfter(c, first)
    ensures !(Ties(c, key) && Ties(first, key))
  {
  }

  lemma {:induction false} InsertIsStable(c: Candidate, sorted: seq<Candidate>, key: Candidate)
    requires c.start <= c.end && forall k | 0 <= k < |sorted| :: sorted[k].start <= sorted[k].end
    ensures Tied(Insert(c, sorted), key) == Tied([c] + sorted, key)
  {
    hide NotAfter, Ties, Tied;
    if sorted != [] && !NotAfter(c, sorted[0]) {
      var first, rest := sorted[0], sorted[1..];
      assert sorted == [first] + rest;
      InsertIsStable(c, rest, key);
      TiedSplits(first, Insert(c, rest), key);
      TiedSplits(c, rest, key);
      TiedSplits(c, sorted, key);
      TiedSplits(first, rest, key);
      LaterDoesNotTie(c, first, key);
    }
  }

  lemma {:induction false} SortIsStable(cs: seq<Candidate>, key: Candidate)
    requires forall k | 0 <= k < |cs| :: cs[k].start <= cs[k].end
    ensures Tied(Sort(cs), key) == Tied(cs, key)
  {
    if cs != [] {
      var rest := cs[1..];
      SortIsStable(rest, key);
      SortIsOrdered(rest);
      SameElements(Sort(rest), rest);
      forall k | 0 <= k < |Sort(rest)|
        ensures Sort(rest)[k].start <= Sort(rest)[k].end
      {
        assert Sort(rest)[k] in rest;
      }
      InsertIsStable(cs[0], Sort(rest), key);
      assert ([cs[0]] + Sort(rest))[1..] == Sort(rest);
    }
  }

  /** Of candidates that tie, only the first can be chosen. */
  lemma {:induction false} SelectTakesFirst(sorted: seq<Candidate>, cursor: nat, c: Candidate)
    requires c in Select(sorted, cursor)
    ensures c.start < c.end && cursor <= c.start && Tied(sorted, c) != [] && Tied(sorted, c)[0] == c
  {
    var head, tail := sorted[0], sorted[1..];
    if head.start < head.end && cursor <= head.start {
      if c != head {
        SelectTakesFirst(tail, head.end, c);
      }
    } else {
      SelectTakesFirst(tail, cursor, c);
    }
  }

  lemma NotAfterIs(a: Candidate, b: Candidate)
    requires a.start <= a.end && b.start <= b.end
    ensures NotAfter(a, b) <==> Beats(a, b) || Ties(a, b)
  {
  }

  /**
   * The protected stretches are disjoint non-empty candidates in their order. A candidate is left out
   * only if it is empty or overlaps a protected one that starts earlier, or starts there too and has
   * the higher priority, or the same and is longer, or is the same stretch and was proposed before.
   */
  lemma PreferredAreProtected(candidates: seq<Candidate>, source: Text)
    requires InBounds(source, candidates)
    ensures var chosen := Chosen(candidates);
            && (forall c :: c in chosen ==> c in candidates && c.start < c.end && Tied(candidates, c)[0] == c)
            && (forall i, j | 0 <= i < j < |chosen| :: chosen[i].end <= chosen[j].start)
            && forall c :: c in candidates && c.start < c.end && c !in chosen ==>
                 exists d :: d in chosen && Overlaps(d, c) && (Beats(d, c) || (Ties(d, c) && Tied(candidates, c)[0] == d))
  {
    hide Select, Sort, NotAfter, Beats, Ties, Chosen;
    ChosenIsGreedy(candidates, source);
    var chosen := Chosen(candidates);
    forall c | c in chosen
      ensures c in candidates && c.start < c.end && Tied(candidates, c) != [] && Tied(candidates, c)[0] == c
    {
      ChosenIsFirst(candidates, c);
    }
    DisjointIsOrdered(chosen, 0, |source|);
    forall c | c in candidates && c.start < c.end && c !in chosen
      ensures exists d :: d in chosen && Overlaps(d, c) && (Beats(d, c) || (Ties(d, c) && Tied(candidates, c)[0] == d))
    {
      var d :| d in chosen && NotAfter(d, c) && Overlaps(d, c);
      NotAfterIs(d, c);
      ChosenIsFirst(candidates, d);
      if Ties(d, c) {
        SameTies(candidates, d, c);
      }
    }
  }

  lemma ChosenIsFirst(candidates: seq<Candidate>, c: Candidate)
    requires c in Chosen(candidates) && forall k | 0 <= k < |candidates| :: candidates[k].start <= candidates[k].end
    ensures c.start < c.end && Tied(candidates, c) != [] && Tied(candidates, c)[0] == c
  {
    hide Select, Sort;
    SelectTakesFirst(Sort(candidates), 0, c);
    SortIsStable(candidates, c);
  }

  lemma {:induction false} SameTies(cs: seq<Candidate>, a: Candidate, b: Candidate)
    requires Ties(a, b)
    ensures Tied(cs, a) == Tied(cs, b)
  {
    if cs != [] {
      SameTies(cs[1..], a, b);
    }
  }

  lemma {:induction false} DisjointIsOrdered(chosen: seq<Candidate>, cursor: nat, length: nat)
    requires Disjoint(chosen, cursor, length)
    ensures forall i | 0 <= i < |chosen| :: cursor <= chosen[i].start < chosen[i].end
    ensures forall i, j | 0 <= i < j < |chosen| :: chosen[i].end <= chosen[j].start
    decreases |chosen|
  {
    if chosen != [] {
      var rest := chosen[1..];
      DisjointIsOrdered(rest, chosen[0].end, length);
      assert forall i | 1 <= i < |chosen| :: chosen[i] == rest[i - 1];
    }
  }

  // What a span carries

  function Underscores(n: nat): Text {
    seq(n, _ => UNDERSCORE)
  }

  /** The prefix, the index in decimal, and so many underscores. */
  function Token(index: nat, underscores: nat): Text {
    PREFIX + Digits(index) + Underscores(underscores)
  }

  lemma TokenGrows(index: nat, n: nat)
    ensures Token(index, n) + [UNDERSCORE] == Token(index, n + 1)
  {
    assert Underscores(n) + [UNDERSCORE] == Underscores(n + 1);
  }

  lemma {:induction false} LengthenedIsShortest(index: nat, from: nat, source: Text) returns (n: nat)
    ensures n >= from && Lengthen(Token(index, from), source) == Token(index, n)
    ensures !Contains(source, Token(index, n))
    ensures forall m: nat | from <= m < n :: Contains(source, Token(index, m))
    decreases |source| + 1 - |Token(index, from)|
  {
    hide Contains, Digits, Token;
    if Contains(source, Token(index, from)) {
      TokenGrows(index, from);
      TokenFits(index, from, source);
      n := LengthenedIsShortest(index, from + 1, source);
    } else {
      n := from;
    }
  }

  lemma TokenFits(index: nat, from: nat, source: Text)
    requires Contains(source, Token(index, from))
    ensures |Token(index, from)| <= |source| && |Token(index, from + 1)| == |Token(index, from)| + 1
  {
  }

  /** At least two underscores, and as few as keep the token out of the source. */
  ghost predicate IsShortestToken(token: Text, index: nat, source: Text) {
    exists n: nat :: n >= 2 && token == Token(index, n) && !Contains(source, token)
                     && forall m: nat | 2 <= m < n :: Contains(source, Token(index, m))
  }

  lemma MarkerIsShortest(index: nat, source: Text)
    ensures IsShortestToken(MarkerFor(index, source), index, source)
  {
    hide Lengthen, Contains, Digits;
    var n := LengthenedIsShortest(index, 2, source);
    assert Underscores(2) == [UNDERSCORE, UNDERSCORE];
    assert Token(index, 2) == PREFIX + Digits(index) + [UNDERSCORE, UNDERSCORE];
  }

  lemma {:induction false} SpansCarry(source: Text, chosen: seq<Candidate>, cursor: nat, index: nat, k: nat)
    requires Usable(source, chosen, cursor) && k < |chosen|
    ensures chosen[k].start <= chosen[k].end <= |source|
    ensures SpansFrom(source, chosen, cursor, index)[k] == SpanFor(source, chosen[k], index + k)
    decreases |chosen|
  {
    if k > 0 {
      SpansCarry(source, chosen[1..], chosen[0].end, index + 1, k - 1);
    }
  }

  /** The span of each protected stretch holds that stretch, its replacement, and the shortest free token of its index. */
  lemma SpansHoldTheirStretches(source: Text, candidates: seq<Candidate>, k: nat)
    requires InBounds(source, candidates) && k < |Chosen(candidates)|
    ensures var c := Chosen(candidates)[k];
            && c.start <= c.end <= |source| && k < |Protect(source, candidates).spans|
            && var span := Protect(source, candidates).spans[k];
               && span.source == source[c.start..c.end] && span.replacement == c.replacement
               && IsShortestToken(span.token, k, source)
  {
    hide Select, Sort, Chosen, SpansFrom, GapsFrom, Weave, WellFormed, IsShortestToken, MarkerFor;
    ChosenIsGreedy(candidates, source);
    DisjointIsUsable(source, Chosen(candidates), 0);
    SpansCarry(source, Chosen(candidates), 0, 0, k);
    MarkerIsShortest(k, source);
  }
}
