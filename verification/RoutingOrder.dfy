/** The decision of the router does not depend on the order in which candidates are listed. */
module RoutingOrder {
  import opened Texts
  import opened Routing

  // ---------------------------------------------------------------------------------------------
  // The ranking order is total, and ties only with itself.

  lemma {:induction false} LessIsStrict(a: seq<int>, b: seq<int>)
    ensures Less(a, b) ==> !Less(b, a)
    ensures !Less(a, b) && !Less(b, a) ==> a == b
    decreases |a|
  {
    if a != [] && b != [] && a[0] == b[0] {
      LessIsStrict(a[1..], b[1..]);
      assert a[1..] == b[1..] ==> a == [a[0]] + a[1..] == [b[0]] + b[1..] == b;
    }
  }

  lemma {:induction false} LessIsTransitive(a: seq<int>, b: seq<int>, c: seq<int>)
    requires Less(a, b) && Less(b, c)
    ensures Less(a, c)
    decreases |a|
  {
    if a != [] && a[0] == b[0] == c[0] {
      LessIsTransitive(a[1..], b[1..], c[1..]);
    }
  }

  function KeyCodes(r: Rank): seq<int> {
    Codes(Key(r.candidate))
  }

  lemma NotBehindIsTotal(a: Rank, b: Rank)
    ensures NotBehind(a, b) || NotBehind(b, a)
    ensures NotBehind(a, b) && NotBehind(b, a) ==> a.score == b.score && KeyCodes(a) == KeyCodes(b)
  {
    LessIsStrict(a.score, b.score);
    LessIsStrict(KeyCodes(a), KeyCodes(b));
  }

  lemma NotBehindIsTransitive(a: Rank, b: Rank, c: Rank)
    requires NotBehind(a, b) && NotBehind(b, c)
    ensures NotBehind(a, c)
  {
    hide Less;
    if Less(b.score, a.score) {
      if Less(c.score, b.score) {
        LessIsTransitive(c.score, b.score, a.score);
      }
    } else if a.score == b.score == c.score {
      if Less(KeyCodes(c), KeyCodes(a)) {
        LessIsStrict(KeyCodes(b), KeyCodes(a));
        if Less(KeyCodes(a), KeyCodes(b)) {
          LessIsTransitive(KeyCodes(c), KeyCodes(a), KeyCodes(b));
        }
      }
    }
  }

  ghost predicate Ordered(rs: seq<Rank>) {
    forall i, j :: 0 <= i < j < |rs| ==> NotBehind(rs[i], rs[j])
  }

  lemma {:induction false} InsertKeepsOrder(r: Rank, sorted: seq<Rank>)
    requires Ordered(sorted)
    ensures Ordered(InsertRank(r, sorted))
  {
    hide NotBehind;
    var result := InsertRank(r, sorted);
    if sorted != [] {
      if NotBehind(r, sorted[0]) {
        forall j | 0 <= j < |sorted|
          ensures NotBehind(r, sorted[j])
        {
          if 0 < j {
            NotBehindIsTransitive(r, sorted[0], sorted[j]);
          }
        }
      } else {
        NotBehindIsTotal(r, sorted[0]);
        InsertKeepsOrder(r, sorted[1..]);
        var rest := InsertRank(r, sorted[1..]);
        InsertKeepsAll(r, sorted[1..]);
        forall j | 0 <= j < |rest|
          ensures NotBehind(sorted[0], rest[j])
        {
          assert rest[j] in multiset(rest);
          assert rest[j] == r || rest[j] in sorted[1..];
        }
      }
    }
  }

  lemma {:induction false} SortOrders(rs: seq<Rank>)
    ensures Ordered(SortRanks(rs))
  {
    if rs != [] {
      SortOrders(rs[1..]);
      InsertKeepsOrder(rs[0], SortRanks(rs[1..]));
    }
  }

  /** Ranks that agree on score and key are the same rank. */
  ghost predicate KeyedApart(rs: seq<Rank>) {
    forall a, b :: a in rs && b in rs && KeyCodes(a) == KeyCodes(b) ==> a == b
  }

  /** There is only one way to order ranks whose keys differ. */
  lemma {:induction false} OrderIsUnique(a: seq<Rank>, b: seq<Rank>)
    requires Ordered(a) && Ordered(b) && multiset(a) == multiset(b) && KeyedApart(a)
    ensures a == b
    decreases |a|
  {
    hide NotBehind, Ordered, KeyedApart;
    assert |a| == |multiset(a)| == |multiset(b)| == |b|;
    if a != [] {
      FrontIsShared(a, b);
      TailsMatch(a, b);
      TailKeeps(a);
      TailKeeps(b);
      OrderIsUnique(a[1..], b[1..]);
      assert a == [a[0]] + a[1..] && b == [b[0]] + b[1..];
    }
  }

  lemma TailsMatch(a: seq<Rank>, b: seq<Rank>)
    requires a != [] && b != [] && a[0] == b[0] && multiset(a) == multiset(b)
    ensures multiset(a[1..]) == multiset(b[1..])
  {
    assert a == [a[0]] + a[1..] && b == [b[0]] + b[1..];
    assert multiset(a[1..]) == multiset(a) - multiset{a[0]} == multiset(b) - multiset{b[0]} == multiset(b[1..]);
  }

  lemma TailKeeps(a: seq<Rank>)
    requires a != []
    ensures Ordered(a) ==> Ordered(a[1..])
    ensures KeyedApart(a) ==> KeyedApart(a[1..])
  {
    hide NotBehind, KeyCodes;
    assert a == [a[0]] + a[1..];
  }

  lemma FrontIsShared(a: seq<Rank>, b: seq<Rank>)
    requires Ordered(a) && Ordered(b) && multiset(a) == multiset(b) && KeyedApart(a)
    requires a != [] && b != []
    ensures a[0] == b[0]
  {
    hide NotBehind;
    var x, y := a[0], b[0];
    assert x in multiset(b) && y in multiset(a);
    NotBehindIsTotal(x, y);
    assert NotBehind(x, x) by {
      NotBehindIsTotal(x, x);
    }
    assert x in b && y in a;
    var i :| 0 <= i < |b| && b[i] == x;
    var j :| 0 <= j < |a| && a[j] == y;
    assert NotBehind(y, x) && NotBehind(x, y);
  }

  // ---------------------------------------------------------------------------------------------
  // Keys tell candidates apart.

  /** `provider@model` splits in only one way, because identifiers do not contain `@`. */
  lemma KeyIsInjective(a: Candidate, b: Candidate)
    requires ValidCandidate(a) && ValidCandidate(b) && Key(a) == Key(b)
    ensures SamePair(a, b)
  {
    var n, m := |a.providerId|, |b.providerId|;
    if n < m {
      LongerProviderHasAt(a, b);
    } else if m < n {
      LongerProviderHasAt(b, a);
    }
    var key := Key(a);
    assert a.providerId == key[..n] && b.providerId == key[..m];
    assert a.modelId == key[n + 1..] && b.modelId == key[m + 1..];
  }

  lemma LongerProviderHasAt(a: Candidate, b: Candidate)
    requires Key(a) == Key(b) && |a.providerId| < |b.providerId|
    ensures '@' in b.providerId && exists k :: 0 <= k < |b.providerId| && b.providerId[k] == '@'
  {
    var n := |a.providerId|;
    assert Key(a)[n] == '@' && Key(b)[n] == b.providerId[n];
  }

  lemma CodesAreInjective(s: string, t: string)
    requires Codes(s) == Codes(t)
    ensures s == t
  {
    forall k | 0 <= k < |s|
      ensures s[k] == t[k]
    {
      assert Codes(s)[k] == Codes(t)[k];
    }
  }

  lemma {:induction false} EligibleComesFrom(k: Constraints, x: Context, cs: seq<Candidate>)
    ensures forall c :: multiset(Eligible(k, x, cs))[c] == if RejectionReason(k, c, x).None? then multiset(cs)[c] else 0
    decreases |cs|
  {
    hide RejectionReason;
    if cs != [] {
      EligibleComesFrom(k, x, cs[1..]);
      assert cs == [cs[0]] + cs[1..];
    }
  }

  lemma {:induction false} RanksCount(preference: Preference, cs: seq<Candidate>, r: Rank)
    ensures multiset(Ranks(preference, cs))[r]
         == if r.score == Score(preference, r.candidate) then multiset(cs)[r.candidate] else 0
    decreases |cs|
  {
    hide Score;
    if cs != [] {
      RanksCount(preference, cs[1..], r);
      assert cs == [cs[0]] + cs[1..];
      assert Ranks(preference, cs) == [Rank(cs[0], Score(preference, cs[0]))] + Ranks(preference, cs[1..]);
    }
  }

  lemma EligibleRanksAreKeyedApart(p: Profile, x: Context)
    requires ValidProfile(p)
    ensures KeyedApart(Ranks(p.constraints.preference, Eligible(p.constraints, x, p.candidates)))
  {
    hide Score, RejectionReason, ValidCandidate, Key;
    var found := Eligible(p.constraints, x, p.candidates);
    var rs := Ranks(p.constraints.preference, found);
    EligibleComesFrom(p.constraints, x, p.candidates);
    forall a, b | a in rs && b in rs && KeyCodes(a) == KeyCodes(b)
      ensures a == b
    {
      assert a.candidate in found && b.candidate in found;
      assert a.candidate in multiset(found) && b.candidate in multiset(found);
      assert a.candidate in multiset(p.candidates) && b.candidate in multiset(p.candidates);
      assert a.candidate in p.candidates && b.candidate in p.candidates;
      CodesAreInjective(Key(a.candidate), Key(b.candidate));
      KeyIsInjective(a.candidate, b.candidate);
    }
  }

  /** The same profile with its candidates listed in another order. */
  ghost predicate Shuffled(p: Profile, q: Profile) {
    && multiset(p.candidates) == multiset(q.candidates)
    && q == p.(candidates := q.candidates)
  }

  /**
   * In automatic mode a valid profile decides the same way however its candidates are listed:
   * same selection, same eligible order, same ranking, same fallback order.
   */
  lemma AutomaticIgnoresOrder(p: Profile, q: Profile, x: Context)
    requires Shuffled(p, q) && p.mode == Automatic && ValidProfile(p)
    ensures Decide(p, x).Ok? == Decide(q, x).Ok?
    ensures Decide(p, x).Ok? ==>
              var d, e := Decide(p, x).value, Decide(q, x).value;
              d.selected == e.selected && d.eligible == e.eligible && d.ranking == e.ranking && d.fallback == e.fallback
  {
    hide ValidProfile, RejectionReason, Eligible, Ranks, SortRanks;
    ShuffledIsValid(p, q);
    RankingsAgree(p, q, x);
    SortKeepsAll(EligibleRanks(p, x));
    SortKeepsAll(EligibleRanks(q, x));
  }

  function EligibleRanks(p: Profile, x: Context): seq<Rank> {
    Ranks(p.constraints.preference, Eligible(p.constraints, x, p.candidates))
  }

  lemma RankingsAgree(p: Profile, q: Profile, x: Context)
    requires Shuffled(p, q) && ValidProfile(p)
    ensures |Eligible(p.constraints, x, p.candidates)| == |Eligible(q.constraints, x, q.candidates)|
    ensures SortRanks(EligibleRanks(p, x)) == SortRanks(EligibleRanks(q, x))
  {
    hide ValidProfile, Score, RejectionReason, SortRanks, Ordered, KeyedApart;
    var a, b := EligibleRanks(p, x), EligibleRanks(q, x);
    RanksArePermuted(p, q, x);
    SortKeepsAll(a);
    SortKeepsAll(b);
    SortOrders(a);
    SortOrders(b);
    EligibleRanksAreKeyedApart(p, x);
    ApartAfterSorting(a);
    OrderIsUnique(SortRanks(a), SortRanks(b));
  }

  lemma RanksArePermuted(p: Profile, q: Profile, x: Context)
    requires Shuffled(p, q)
    ensures |Eligible(p.constraints, x, p.candidates)| == |Eligible(q.constraints, x, q.candidates)|
    ensures multiset(EligibleRanks(p, x)) == multiset(EligibleRanks(q, x))
  {
    hide Score, RejectionReason, Ranks;
    var k := p.constraints;
    EligibleIsPermuted(k, x, p.candidates, q.candidates);
    RanksFollow(k.preference, Eligible(k, x, p.candidates), Eligible(k, x, q.candidates));
  }

  lemma EligibleIsPermuted(k: Constraints, x: Context, a: seq<Candidate>, b: seq<Candidate>)
    requires multiset(a) == multiset(b)
    ensures multiset(Eligible(k, x, a)) == multiset(Eligible(k, x, b))
    ensures |Eligible(k, x, a)| == |Eligible(k, x, b)|
  {
    hide RejectionReason, Eligible;
    EligibleComesFrom(k, x, a);
    EligibleComesFrom(k, x, b);
    var found, other := Eligible(k, x, a), Eligible(k, x, b);
    assert multiset(found) == multiset(other);
    assert |found| == |multiset(found)| == |multiset(other)| == |other|;
  }

  lemma RanksFollow(preference: Preference, a: seq<Candidate>, b: seq<Candidate>)
    requires multiset(a) == multiset(b)
    ensures multiset(Ranks(preference, a)) == multiset(Ranks(preference, b))
  {
    hide Score, Ranks;
    var first, second := Ranks(preference, a), Ranks(preference, b);
    forall r
      ensures multiset(first)[r] == multiset(second)[r]
    {
      RanksCount(preference, a, r);
      RanksCount(preference, b, r);
    }
  }

  /** Reordering keeps a profile valid. */
  lemma ShuffledIsValid(p: Profile, q: Profile)
    requires Shuffled(p, q) && ValidProfile(p)
    ensures ValidProfile(q)
  {
    hide ValidCandidate, ValidIdentifiers, ValidIdentifier;
    var a, b := p.candidates, q.candidates;
    assert |a| == |multiset(a)| == |multiset(b)| == |b|;
    forall k | 0 <= k < |b|
      ensures b[k] in a
    {
      assert b[k] in multiset(b);
    }
    forall i, j | 0 <= i < j < |b|
      ensures !SamePair(b[i], b[j])
    {
      if SamePair(b[i], b[j]) {
        assert b[i] == b[j];
        TwiceInReordering(a, b, i, j);
      }
    }
  }

  lemma TwiceInReordering(a: seq<Candidate>, b: seq<Candidate>, i: nat, j: nat)
    requires multiset(a) == multiset(b) && i < j < |b| && b[i] == b[j]
    ensures exists k, l :: 0 <= k < l < |a| && SamePair(a[k], a[l])
  {
    TwiceThere(b, i, j);
    var k, l := FoundTwice(a, b[i]);
    assert SamePair(a[k], a[l]);
  }

  lemma TwiceThere(b: seq<Candidate>, i: nat, j: nat)
    requires i < j < |b| && b[i] == b[j]
    ensures multiset(b)[b[i]] >= 2
  {
    assert b == b[..i] + [b[i]] + b[i + 1..j] + [b[j]] + b[j + 1..];
  }

  lemma FoundTwice(a: seq<Candidate>, c: Candidate) returns (k: nat, l: nat)
    requires multiset(a)[c] >= 2
    ensures k < l < |a| && a[k] == a[l] == c
  {
    assert c in a;
    var i :| 0 <= i < |a| && a[i] == c;
    var rest := a[..i] + a[i + 1..];
    assert a == a[..i] + [a[i]] + a[i + 1..];
    assert multiset(a) == multiset(rest) + multiset{c};
    assert c in rest;
    var j :| 0 <= j < |rest| && rest[j] == c;
    if j < i {
      k, l := j, i;
    } else {
      k, l := i, j + 1;
    }
  }

  lemma ApartAfterSorting(a: seq<Rank>)
    requires KeyedApart(a)
    ensures KeyedApart(SortRanks(a))
  {
    SortKeepsAll(a);
    forall r | r in SortRanks(a)
      ensures r in a
    {
      assert r in multiset(SortRanks(a));
    }
  }

  // ---------------------------------------------------------------------------------------------
  // What the selection promises.

  /** The selected candidate satisfies every constraint, and no eligible candidate scores higher. */
  lemma SelectionIsMaximal(p: Profile, x: Context, c: Candidate)
    requires p.mode == Automatic && Decide(p, x).Ok?
    requires c in p.candidates && RejectionReason(p.constraints, c, x).None?
    ensures var selected := Decide(p, x).value.selected;
            && selected in p.candidates && RejectionReason(p.constraints, selected, x).None?
            && !Less(Score(p.constraints.preference, selected), Score(p.constraints.preference, c))
            && (c != selected && Score(p.constraints.preference, selected) == Score(p.constraints.preference, c)
                ==> Less(Codes(Key(selected)), Codes(Key(c))))
  {
    hide Score, RejectionReason, SortRanks, Less, NotBehind;
    var k := p.constraints;
    var found := Eligible(k, x, p.candidates);
    var rs := Ranks(k.preference, found);
    EligibleComesFrom(k, x, p.candidates);
    var r := Rank(c, Score(k.preference, c));
    assert c in multiset(p.candidates) && c in multiset(found) && c in found;
    var i :| 0 <= i < |found| && found[i] == c;
    assert rs[i] == r && r in rs;
    BestIsFirst(rs, r);
    var best := SortRanks(rs)[0];
    assert best.candidate in found && best.candidate in multiset(found);
    InFront(best, r);
    EligibleRanksAreKeyedApart(p, x);
  }

  lemma BestIsFirst(rs: seq<Rank>, r: Rank)
    requires r in rs
    ensures SortRanks(rs) != [] && SortRanks(rs)[0] in rs && NotBehind(SortRanks(rs)[0], r)
  {
    hide NotBehind, SortRanks;
    var sorted := SortRanks(rs);
    SortKeepsAll(rs);
    SortOrders(rs);
    assert r in multiset(rs) && r in multiset(sorted) && r in sorted;
    assert sorted[0] in multiset(sorted) && sorted[0] in rs;
    NotBehindIsTotal(r, r);
  }

  lemma InFront(best: Rank, r: Rank)
    requires NotBehind(best, r)
    ensures !Less(best.score, r.score)
    ensures best.score == r.score && KeyCodes(best) != KeyCodes(r) ==> Less(KeyCodes(best), KeyCodes(r))
  {
    LessIsStrict(best.score, r.score);
    LessIsStrict(KeyCodes(best), KeyCodes(r));
  }

  /** When remote providers are ruled out, nothing that is eligible, in any mode, is remote. */
  lemma {:induction false} RemoteIsRuledOut(k: Constraints, x: Context, cs: seq<Candidate>, c: Candidate)
    requires k.localOnly || !k.allowRemote || (k.privacySensitive && x.privacySensitive)
    requires c in Eligible(k, x, cs)
    ensures c.local
    decreases |cs|
  {
    if c in Eligible(k, x, cs[1..]) {
      RemoteIsRuledOut(k, x, cs[1..], c);
    }
  }

  /** A known estimate always beats an unknown one, at every value a 64-bit estimate can take. */
  lemma KnownBeatsUnknown(known: Candidate, unknown: Candidate)
    ensures known.latency.Some? && unknown.latency.None? ==> Less(Score(Latency, unknown), Score(Latency, known))
    ensures known.cost.Some? && unknown.cost.None? ==> Less(Score(Cost, unknown), Score(Cost, known))
  {
  }

  /**
   * A smaller known estimate beats a larger one exactly below the largest signed value; above it
   * all estimates count the same.
   */
  lemma EstimatesSaturate(a: U64, b: U64)
    requires a < b
    ensures Estimate(Some(a)) > Estimate(Some(b)) <==> a < I64_MAX
    ensures Estimate(Some(a)) >= Estimate(Some(b)) > Estimate(None)
  {
  }
}
