/** Who is eligible and who is ranked first, said over the fields of candidates, constraints and request. */
module RoutingFilters {
  import opened Texts
  import opened Strings
  import opened Routing
  import opened RoutingOrder

  /** ASCII letters of either case count as the same. */
  predicate SameLetters(a: string, b: string) {
    LowerCase(a) == LowerCase(b)
  }

  /** An empty list of locales stands for all of them. */
  predicate Speaks(locales: seq<string>, wanted: string) {
    locales == [] || exists k | 0 <= k < |locales| :: SameLetters(locales[k], wanted)
  }

  /** The constraint that each reason names is not met. */
  predicate Fails(k: Constraints, c: Candidate, x: Context, reason: Reason) {
    match reason
    case ProviderNotAllowed => k.providerAllowlist != [] && c.providerId !in k.providerAllowlist
    case ProviderDenied => c.providerId in k.providerDenylist
    case ModelNotAllowed => k.modelAllowlist != [] && c.modelId !in k.modelAllowlist
    case ModelDenied => c.modelId in k.modelDenylist
    case RemoteDisallowed => !c.local && (k.localOnly || !k.allowRemote)
    case PrivacyRemoteDisallowed => !c.local && k.privacySensitive && x.privacySensitive
    case StreamingUnsupported => !c.streaming && (k.requireStreaming || x.requireStreaming)
    case DocumentUnsupported => !c.document && (k.requireDocument || x.requireDocument)
    case ContextTooSmall => c.capacity < x.requestBytes
    case RequestTooLarge => k.maxRequestBytes.Some? && k.maxRequestBytes.value < x.requestBytes
    case QualityTooLow => k.minimumQuality.Some? && c.quality < k.minimumQuality.value
    case SourceLocaleUnsupported => x.sourceLocale.Some? && !Speaks(c.sourceLocales, x.sourceLocale.value)
    case TargetLocaleUnsupported => !Speaks(c.targetLocales, x.targetLocale)
  }

  predicate Meets(k: Constraints, c: Candidate, x: Context) {
    && (k.providerAllowlist == [] || c.providerId in k.providerAllowlist) && c.providerId !in k.providerDenylist
    && (k.modelAllowlist == [] || c.modelId in k.modelAllowlist) && c.modelId !in k.modelDenylist
    && (c.local || (!k.localOnly && k.allowRemote && !(k.privacySensitive && x.privacySensitive)))
    && (c.streaming || (!k.requireStreaming && !x.requireStreaming))
    && (c.document || (!k.requireDocument && !x.requireDocument))
    && x.requestBytes <= c.capacity
    && (k.maxRequestBytes.Some? ==> x.requestBytes <= k.maxRequestBytes.value)
    && (k.minimumQuality.Some? ==> k.minimumQuality.value <= c.quality)
    && (x.sourceLocale.Some? ==> Speaks(c.sourceLocales, x.sourceLocale.value))
    && Speaks(c.targetLocales, x.targetLocale)
  }

  lemma SupportsIsSpeaks(locales: seq<string>, wanted: string)
    ensures Supports(locales, wanted) <==> Speaks(locales, wanted)
  {
    forall k | 0 <= k < |locales|
      ensures EqIgnoreCase(locales[k], wanted) <==> SameLetters(locales[k], wanted)
    {
      SameLettersSame(locales[k], wanted);
    }
  }

  lemma SameLettersSame(a: string, b: string)
    ensures EqIgnoreCase(a, b) <==> SameLetters(a, b)
  {
    hide ToLower;
    if SameLetters(a, b) {
      assert |a| == |LowerCase(a)| == |LowerCase(b)| == |b|;
      forall k | 0 <= k < |a|
        ensures ToLower(a[k]) == ToLower(b[k])
      {
        assert LowerCase(a)[k] == LowerCase(b)[k];
      }
    }
  }

  /** No reason to reject means that everything is met; a reason names something that is not. */
  lemma ReasonIsTrue(k: Constraints, c: Candidate, x: Context)
    ensures RejectionReason(k, c, x).None? <==> Meets(k, c, x)
    ensures RejectionReason(k, c, x).Some? ==> Fails(k, c, x, RejectionReason(k, c, x).value)
  {
    hide Supports, Speaks;
    SupportsIsSpeaks(c.targetLocales, x.targetLocale);
    if x.sourceLocale.Some? {
      SupportsIsSpeaks(c.sourceLocales, x.sourceLocale.value);
    }
  }

  /** What a decision must be when the candidates are filtered by their fields. */
  ghost predicate Filtered(k: Constraints, x: Context, cs: seq<Candidate>, eligible: seq<Candidate>, rejected: seq<Rejection>) {
    && (forall c :: c in eligible <==> c in cs && Meets(k, c, x))
    && (forall r :: r in rejected ==> r.candidate in cs && Fails(k, r.candidate, x, r.reason))
    && (forall c :: c in cs && !Meets(k, c, x) ==> exists r :: r in rejected && r.candidate == c)
    && (forall c :: c in cs && Meets(k, c, x) ==> forall r :: r in rejected ==> r.candidate != c)
  }

  lemma {:induction false} EligibleIsFiltered(k: Constraints, x: Context, cs: seq<Candidate>, c: Candidate)
    ensures c in Eligible(k, x, cs) <==> c in cs && Meets(k, c, x)
  {
    hide RejectionReason, Meets;
    if cs != [] {
      ReasonIsTrue(k, cs[0], x);
      EligibleIsFiltered(k, x, cs[1..], c);
      assert cs == [cs[0]] + cs[1..];
    }
  }

  lemma {:induction false} RejectedFails(k: Constraints, x: Context, cs: seq<Candidate>, r: Rejection)
    requires r in Rejected(k, x, cs)
    ensures r.candidate in cs && Fails(k, r.candidate, x, r.reason) && !Meets(k, r.candidate, x)
  {
    hide RejectionReason, Meets, Fails;
    ReasonIsTrue(k, cs[0], x);
    if cs[0] != r.candidate || RejectionReason(k, cs[0], x) != Some(r.reason) {
      RejectedFails(k, x, cs[1..], r);
      assert cs == [cs[0]] + cs[1..];
    }
  }

  lemma {:induction false} FailingIsRejected(k: Constraints, x: Context, cs: seq<Candidate>, c: Candidate)
    requires c in cs && !Meets(k, c, x)
    ensures exists r :: r in Rejected(k, x, cs) && r.candidate == c
  {
    hide RejectionReason, Meets;
    ReasonIsTrue(k, cs[0], x);
    assert cs == [cs[0]] + cs[1..];
    if c == cs[0] {
      assert Rejection(c, RejectionReason(k, c, x).value) in Rejected(k, x, cs);
    } else {
      FailingIsRejected(k, x, cs[1..], c);
      var r :| r in Rejected(k, x, cs[1..]) && r.candidate == c;
      assert r in Rejected(k, x, cs);
    }
  }

  lemma FilteringIsExact(k: Constraints, x: Context, cs: seq<Candidate>)
    ensures Filtered(k, x, cs, Eligible(k, x, cs), Rejected(k, x, cs))
  {
    hide RejectionReason, Meets, Fails, Eligible, Rejected;
    forall c
      ensures c in Eligible(k, x, cs) <==> c in cs && Meets(k, c, x)
    {
      EligibleIsFiltered(k, x, cs, c);
    }
    forall r | r in Rejected(k, x, cs)
      ensures r.candidate in cs && Fails(k, r.candidate, x, r.reason) && !Meets(k, r.candidate, x)
    {
      RejectedFails(k, x, cs, r);
    }
    forall c | c in cs && !Meets(k, c, x)
      ensures exists r :: r in Rejected(k, x, cs) && r.candidate == c
    {
      FailingIsRejected(k, x, cs, c);
    }
  }

  /**
   * A profile that is not valid, or a blank target locale, is refused as such, and nothing else is.
   * Every valid profile, every request and every mode: a candidate is eligible if and only if it meets
   * both allowlists and denylists, the local and privacy rules, streaming, document, capacity, request
   * size, quality and both locales; each other one is rejected for a constraint that it fails; and the
   * selection fails for lack of candidates exactly when none meets them. The fallback, where it is
   * allowed, is everything eligible but the selected one.
   */
  lemma EligibleMeetsEverything(p: Profile, x: Context)
    ensures Decide(p, x) == Err(InvalidConfiguration) <==> !ValidProfile(p) || IsBlankText(x.targetLocale)
    ensures var k, cs := p.constraints, p.candidates;
            match Decide(p, x)
            case Ok(d) =>
              && d.eligible == [d.selected] + d.eligible[1..]
              && Filtered(k, x, cs, d.eligible, d.rejected)
              && d.fallback == if k.explicitFallbackAllowed && !p.mode.Manual? then d.eligible[1..] else []
            case Err(InvalidConfiguration) => true
            case Err(NoEligibleCandidates(rejected)) => Filtered(k, x, cs, [], rejected)
  {
    hide ValidProfile, Eligible, Rejected, Filtered, SortRanks, Ranks;
    var k, found := p.constraints, Eligible(p.constraints, x, p.candidates);
    FilteringIsExact(k, x, p.candidates);
    if found != [] && p.mode == Automatic {
      RankingKeepsCandidates(k.preference, found);
      SameMembers(k, x, p.candidates, found, CandidatesOf(SortRanks(Ranks(k.preference, found))), Rejected(k, x, p.candidates));
    }
  }

  lemma SameMembers(k: Constraints, x: Context, cs: seq<Candidate>, found: seq<Candidate>, sorted: seq<Candidate>, rejected: seq<Rejection>)
    requires Filtered(k, x, cs, found, rejected) && forall c :: c in sorted <==> c in found
    ensures Filtered(k, x, cs, sorted, rejected)
  {
    hide Meets, Fails;
  }

  lemma RankingKeepsCandidates(preference: Preference, found: seq<Candidate>)
    ensures var sorted := CandidatesOf(SortRanks(Ranks(preference, found)));
            |sorted| == |found| && forall c :: c in sorted <==> c in found
  {
    hide Score, SortRanks;
    var rs := Ranks(preference, found);
    var ranking := SortRanks(rs);
    SortKeepsAll(rs);
    assert forall r :: r in multiset(ranking) <==> r in multiset(rs);
    forall c
      ensures c in CandidatesOf(ranking) <==> c in found
    {
      if c in found {
        var i :| 0 <= i < |found| && found[i] == c;
        assert rs[i] in multiset(rs) && rs[i] in ranking;
        var j :| 0 <= j < |ranking| && ranking[j] == rs[i];
        assert CandidatesOf(ranking)[j] == c;
      }
      if c in CandidatesOf(ranking) {
        var j :| 0 <= j < |ranking| && CandidatesOf(ranking)[j] == c;
        assert ranking[j] in multiset(ranking) && ranking[j] in rs;
        var i :| 0 <= i < |rs| && rs[i] == ranking[j];
        assert found[i] == c;
      }
    }
  }

  // ---------------------------------------------------------------------------------------------
  // Order.

  /** Without ranking, the first candidate of the profile that meets everything is selected. */
  lemma FirstEligibleIsSelected(p: Profile, x: Context)
    requires p.mode != Automatic && Decide(p, x).Ok?
    ensures var k, cs, selected := p.constraints, p.candidates, Decide(p, x).value.selected;
            exists i | 0 <= i < |cs| :: cs[i] == selected && Meets(k, selected, x) && forall j | 0 <= j < i :: !Meets(k, cs[j], x)
  {
    hide ValidProfile, RejectionReason, Meets, SortRanks, Ranks;
    var i := FirstFound(p.constraints, x, p.candidates);
  }

  lemma {:induction false} FirstFound(k: Constraints, x: Context, cs: seq<Candidate>) returns (i: nat)
    requires Eligible(k, x, cs) != []
    ensures i < |cs| && cs[i] == Eligible(k, x, cs)[0] && Meets(k, cs[i], x)
    ensures forall j | 0 <= j < i :: !Meets(k, cs[j], x)
    decreases |cs|
  {
    hide RejectionReason, Meets;
    ReasonIsTrue(k, cs[0], x);
    if Meets(k, cs[0], x) {
      i := 0;
    } else {
      i := FirstFound(k, x, cs[1..]);
      assert forall j | 0 < j < i + 1 :: cs[j] == cs[1..][j - 1];
      i := i + 1;
    }
  }

  /** How far a known estimate counts; beyond the largest signed value all are alike. */
  function Counted(v: U64): int {
    if v <= I64_MAX then v else I64_MAX
  }

  predicate Lower(a: Option<U64>, b: Option<U64>) {
    a.Some? && (b.None? || Counted(a.value) < Counted(b.value))
  }

  predicate SameEstimate(a: Option<U64>, b: Option<U64>) {
    (a.None? && b.None?) || (a.Some? && b.Some? && Counted(a.value) == Counted(b.value))
  }

  predicate Nearer(a: Candidate, b: Candidate) {
    a.local && !b.local
  }

  /** `a` is preferred to `b`: by the preferred quality first, then as said by the preference. */
  predicate Better(preference: Preference, a: Candidate, b: Candidate) {
    match preference
    case Local => Nearer(a, b) || (a.local == b.local && a.quality > b.quality)
    case Quality => a.quality > b.quality || (a.quality == b.quality && Nearer(a, b))
    case Latency => Lower(a.latency, b.latency) || (SameEstimate(a.latency, b.latency) && Nearer(a, b))
    case Cost => Lower(a.cost, b.cost) || (SameEstimate(a.cost, b.cost) && Nearer(a, b))
    case NoPreference => Nearer(a, b)
  }

  lemma ScoresOrder(preference: Preference, a: Candidate, b: Candidate)
    ensures Less(Score(preference, b), Score(preference, a)) <==> Better(preference, a, b)
    ensures Score(preference, a) == Score(preference, b) <==> !Better(preference, a, b) && !Better(preference, b, a)
  {
    match preference
    case Local => TwoDigits(Flag(b.local), b.quality, Flag(a.local), a.quality);
    case Quality => TwoDigits(b.quality, Flag(b.local), a.quality, Flag(a.local));
    case Latency => TwoDigits(Estimate(b.latency), Flag(b.local), Estimate(a.latency), Flag(a.local));
    case Cost => TwoDigits(Estimate(b.cost), Flag(b.local), Estimate(a.cost), Flag(a.local));
    case NoPreference => OneDigit(Flag(b.local), Flag(a.local));
  }

  lemma OneDigit(a: int, b: int)
    ensures Less([a], [b]) <==> a < b
  {
    assert [a][1..] == [] && [b][1..] == [];
  }

  lemma TwoDigits(a: int, b: int, c: int, d: int)
    ensures Less([a, b], [c, d]) <==> a < c || (a == c && b < d)
  {
    assert [a, b][1..] == [b] && [c, d][1..] == [d];
    OneDigit(b, d);
  }

  /**
   * Automatic mode: nothing eligible is better than one in front of it, and among equals the keys
   * ascend. In particular nothing is better than the selected candidate.
   */
  lemma RankingFollowsPreference(p: Profile, x: Context, i: nat, j: nat)
    requires p.mode == Automatic && Decide(p, x).Ok?
    requires i < j < |Decide(p, x).value.eligible|
    ensures var preference, ranked := p.constraints.preference, Decide(p, x).value.eligible;
            && !Better(preference, ranked[j], ranked[i])
            && (Better(preference, ranked[i], ranked[j]) || !Less(Codes(Key(ranked[j])), Codes(Key(ranked[i]))))
    ensures Decide(p, x).value.selected == Decide(p, x).value.eligible[0]
  {
    hide ValidProfile, Eligible, Rejected, SortRanks, Ranks, NotBehind, Less;
    var preference, found := p.constraints.preference, Eligible(p.constraints, x, p.candidates);
    var ranking := SortRanks(Ranks(preference, found));
    SortKeepsAll(Ranks(preference, found));
    SortOrders(Ranks(preference, found));
    RankIsScored(preference, found, i);
    RankIsScored(preference, found, j);
    NotBehindIsBetter(preference, ranking[i], ranking[j]);
  }

  lemma RankIsScored(preference: Preference, found: seq<Candidate>, i: nat)
    requires i < |found|
    ensures var ranking := SortRanks(Ranks(preference, found));
            |ranking| == |found| && ranking[i].score == Score(preference, ranking[i].candidate)
  {
    hide SortRanks, Score;
    var rs := Ranks(preference, found);
    SortKeepsAll(rs);
    var r := SortRanks(rs)[i];
    assert r in multiset(SortRanks(rs)) && r in rs;
  }

  lemma NotBehindIsBetter(preference: Preference, a: Rank, b: Rank)
    requires NotBehind(a, b)
    requires a.score == Score(preference, a.candidate) && b.score == Score(preference, b.candidate)
    ensures !Better(preference, b.candidate, a.candidate)
    ensures Better(preference, a.candidate, b.candidate) || !Less(Codes(Key(b.candidate)), Codes(Key(a.candidate)))
  {
    hide Score, Better, Less, Codes;
    ScoresOrder(preference, a.candidate, b.candidate);
    ScoresOrder(preference, b.candidate, a.candidate);
    LessIsStrict(a.score, b.score);
  }
}
