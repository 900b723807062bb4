/** Automatic choice among translation providers, and why the order of the profile cannot matter. */
module Routing {
  import opened Texts
  import opened Strings

  type U64 = n: int | 0 <= n < 0x1_0000_0000_0000_0000

  const I64_MAX: int := 0x7FFF_FFFF_FFFF_FFFF
  const I64_MIN: int := -0x8000_0000_0000_0000

  datatype Mode = Manual | Ordered | Automatic

  datatype Preference = NoPreference | Local | Quality | Latency | Cost

  datatype Candidate = Candidate(
    providerId: string,
    modelId: string,
    local: bool,
    streaming: bool,
    document: bool,
    capacity: U64,
    quality: U64,
    latency: Option<U64>,
    cost: Option<U64>,
    sourceLocales: seq<string>,
    targetLocales: seq<string>)

  datatype Constraints = Constraints(
    localOnly: bool,
    allowRemote: bool,
    providerAllowlist: seq<string>,
    providerDenylist: seq<string>,
    modelAllowlist: seq<string>,
    modelDenylist: seq<string>,
    requireStreaming: bool,
    requireDocument: bool,
    minimumQuality: Option<U64>,
    maxRequestBytes: Option<U64>,
    preference: Preference,
    privacySensitive: bool,
    explicitFallbackAllowed: bool)

  datatype Context = Context(
    sourceLocale: Option<string>,
    targetLocale: string,
    requestBytes: U64,
    requireStreaming: bool,
    requireDocument: bool,
    privacySensitive: bool)

  datatype Profile = Profile(id: string, mode: Mode, candidates: seq<Candidate>, constraints: Constraints)

  datatype Reason =
    | ProviderNotAllowed | ProviderDenied | ModelNotAllowed | ModelDenied | RemoteDisallowed
    | PrivacyRemoteDisallowed | StreamingUnsupported | DocumentUnsupported | ContextTooSmall
    | QualityTooLow | SourceLocaleUnsupported | TargetLocaleUnsupported | RequestTooLarge

  datatype Rejection = Rejection(candidate: Candidate, reason: Reason)

  datatype Rank = Rank(candidate: Candidate, score: seq<int>)

  datatype Decision = Decision(
    selected: Candidate,
    eligible: seq<Candidate>,
    rejected: seq<Rejection>,
    ranking: seq<Rank>,
    fallback: seq<Candidate>)

  datatype RoutingError = InvalidConfiguration | NoEligibleCandidates(rejected: seq<Rejection>)

  // ---------------------------------------------------------------------------------------------
  // Validation.

  predicate ValidIdentifier(value: string) {
    0 < |value| <= 128 && forall k | 0 <= k < |value| :: IsAlphanumeric(value[k]) || value[k] in {'.', '_', '-'}
  }

  predicate ValidLocale(value: string) {
    0 < |value| <= 64 && forall k | 0 <= k < |value| :: IsAlphanumeric(value[k]) || value[k] in {'-', '_'}
  }

  predicate ValidCandidate(c: Candidate) {
    && ValidIdentifier(c.providerId) && ValidIdentifier(c.modelId)
    && c.capacity != 0
    && (forall k | 0 <= k < |c.sourceLocales| :: ValidLocale(c.sourceLocales[k]))
    && (forall k | 0 <= k < |c.targetLocales| :: ValidLocale(c.targetLocales[k]))
  }

  predicate SamePair(a: Candidate, b: Candidate) {
    a.providerId == b.providerId && a.modelId == b.modelId
  }

  predicate ValidCandidates(cs: seq<Candidate>) {
    && 0 < |cs| <= 32
    && (forall k | 0 <= k < |cs| :: ValidCandidate(cs[k]))
    && (forall i, j | 0 <= i < j < |cs| :: !SamePair(cs[i], cs[j]))
  }

  predicate ValidIdentifiers(values: seq<string>) {
    forall k | 0 <= k < |values| :: ValidIdentifier(values[k])
  }

  predicate ValidProfile(p: Profile) {
    && ValidIdentifier(p.id)
    && ValidCandidates(p.candidates)
    && ValidIdentifiers(p.constraints.providerAllowlist) && ValidIdentifiers(p.constraints.providerDenylist)
    && ValidIdentifiers(p.constraints.modelAllowlist) && ValidIdentifiers(p.constraints.modelDenylist)
    && p.constraints.maxRequestBytes != Some(0)
  }

  // ---------------------------------------------------------------------------------------------
  // Filtering.

  predicate EqIgnoreCase(a: string, b: string) {
    |a| == |b| && forall k | 0 <= k < |a| :: ToLower(a[k]) == ToLower(b[k])
  }

  predicate Supports(locales: seq<string>, wanted: string) {
    locales == [] || exists k | 0 <= k < |locales| :: EqIgnoreCase(locales[k], wanted)
  }

  function RejectionReason(k: Constraints, c: Candidate, x: Context): Option<Reason> {
    if k.providerAllowlist != [] && c.providerId !in k.providerAllowlist then Some(ProviderNotAllowed)
    else if c.providerId in k.providerDenylist then Some(ProviderDenied)
    else if k.modelAllowlist != [] && c.modelId !in k.modelAllowlist then Some(ModelNotAllowed)
    else if c.modelId in k.modelDenylist then Some(ModelDenied)
    else if k.localOnly && !c.local then Some(RemoteDisallowed)
    else if (!k.allowRemote || (k.privacySensitive && x.privacySensitive)) && !c.local then
      Some(if k.privacySensitive && x.privacySensitive then PrivacyRemoteDisallowed else RemoteDisallowed)
    else if (k.requireStreaming || x.requireStreaming) && !c.streaming then Some(StreamingUnsupported)
    else if (k.requireDocument || x.requireDocument) && !c.document then Some(DocumentUnsupported)
    else if x.requestBytes > c.capacity then Some(ContextTooSmall)
    else if k.maxRequestBytes.Some? && x.requestBytes > k.maxRequestBytes.value then Some(RequestTooLarge)
    else if k.minimumQuality.Some? && c.quality < k.minimumQuality.value then Some(QualityTooLow)
    else if x.sourceLocale.Some? && !Supports(c.sourceLocales, x.sourceLocale.value) then Some(SourceLocaleUnsupported)
    else if !Supports(c.targetLocales, x.targetLocale) then Some(TargetLocaleUnsupported)
    else None
  }

  function Eligible(k: Constraints, x: Context, cs: seq<Candidate>): seq<Candidate> {
    if cs == [] then []
    else if RejectionReason(k, cs[0], x).None? then [cs[0]] + Eligible(k, x, cs[1..])
    else Eligible(k, x, cs[1..])
  }

  function Rejected(k: Constraints, x: Context, cs: seq<Candidate>): seq<Rejection> {
    if cs == [] then []
    else
      match RejectionReason(k, cs[0], x)
      case None => Rejected(k, x, cs[1..])
      case Some(reason) => [Rejection(cs[0], reason)] + Rejected(k, x, cs[1..])
  }

  // ---------------------------------------------------------------------------------------------
  // Ranking.

  function Flag(b: bool): int {
    if b then 1 else 0
  }

  /** A known estimate counts against the candidate; an unknown one counts as the worst of all. */
  function Estimate(value: Option<U64>): int {
    match value
    case None => I64_MIN
    case Some(v) => if v <= I64_MAX then -(v as int) else -I64_MAX
  }

  function Score(preference: Preference, c: Candidate): seq<int> {
    match preference
    case Local => [Flag(c.local), c.quality]
    case Quality => [c.quality, Flag(c.local)]
    case Latency => [Estimate(c.latency), Flag(c.local)]
    case Cost => [Estimate(c.cost), Flag(c.local)]
    case NoPreference => [Flag(c.local)]
  }

  function Key(c: Candidate): string {
    c.providerId + "@" + c.modelId
  }

  /** Lexicographic order; a proper prefix comes first. */
  predicate Less(a: seq<int>, b: seq<int>) {
    b != [] && (a == [] || a[0] < b[0] || (a[0] == b[0] && Less(a[1..], b[1..])))
  }

  function Codes(s: string): (codes: seq<int>)
    ensures |codes| == |s| && forall k :: 0 <= k < |s| ==> codes[k] == s[k] as int
  {
    seq(|s|, k requires 0 <= k < |s| => s[k] as int)
  }

  /** `a` does not rank behind `b`: a higher score, or the same score and no later key. */
  predicate NotBehind(a: Rank, b: Rank) {
    Less(b.score, a.score) || (a.score == b.score && !Less(Codes(Key(b.candidate)), Codes(Key(a.candidate))))
  }

  function InsertRank(r: Rank, sorted: seq<Rank>): seq<Rank> {
    if sorted == [] || NotBehind(r, sorted[0]) then [r] + sorted else [sorted[0]] + InsertRank(r, sorted[1..])
  }

  function SortRanks(rs: seq<Rank>): seq<Rank> {
    if rs == [] then [] else InsertRank(rs[0], SortRanks(rs[1..]))
  }

  function Ranks(preference: Preference, cs: seq<Candidate>): (rs: seq<Rank>)
    ensures |rs| == |cs|
  {
    seq(|cs|, k requires 0 <= k < |cs| => Rank(cs[k], Score(preference, cs[k])))
  }

  function CandidatesOf(rs: seq<Rank>): (cs: seq<Candidate>)
    ensures |cs| == |rs|
  {
    seq(|rs|, k requires 0 <= k < |rs| => rs[k].candidate)
  }

  function Decide(p: Profile, x: Context): Result<Decision, RoutingError> {
    if !ValidProfile(p) || IsBlankText(x.targetLocale) then Err(InvalidConfiguration)
    else
      var found := Eligible(p.constraints, x, p.candidates);
      var rejected := Rejected(p.constraints, x, p.candidates);
      if found == [] then Err(NoEligibleCandidates(rejected))
      else
        var ranking := if p.mode == Automatic then SortRanks(Ranks(p.constraints.preference, found)) else [];
        var eligible := if p.mode == Automatic then CandidatesOf(ranking) else found;
        SortKeepsAll(Ranks(p.constraints.preference, found));
        var fallback := if p.constraints.explicitFallbackAllowed && p.mode != Manual then eligible[1..] else [];
        Ok(Decision(eligible[0], eligible, rejected, ranking, fallback))
  }

  /** The loop of the selection. */
  method Select(p: Profile, x: Context) returns (result: Result<Decision, RoutingError>)
    ensures result == Decide(p, x)
  {
    hide ValidProfile, SortRanks, RejectionReason;
    if !ValidProfile(p) || IsBlankText(x.targetLocale) {
      return Err(InvalidConfiguration);
    }
    var eligible: seq<Candidate> := [];
    var rejected: seq<Rejection> := [];
    ghost var cs := p.candidates;
    assert cs[0..] == cs;
    for k := 0 to |p.candidates|
      invariant Eligible(p.constraints, x, cs) == eligible + Eligible(p.constraints, x, cs[k..])
      invariant Rejected(p.constraints, x, cs) == rejected + Rejected(p.constraints, x, cs[k..])
    {
      var candidate := p.candidates[k];
      assert cs[k..][0] == candidate && cs[k..][1..] == cs[k + 1..];
      match RejectionReason(p.constraints, candidate, x) {
        case Some(reason) => rejected := rejected + [Rejection(candidate, reason)];
        case None => eligible := eligible + [candidate];
      }
    }
    assert cs[|cs|..] == [] && eligible + [] == eligible && rejected + [] == rejected;
    if eligible == [] {
      return Err(NoEligibleCandidates(rejected));
    }
    var ranking: seq<Rank> := [];
    SortKeepsAll(Ranks(p.constraints.preference, eligible));
    if p.mode == Automatic {
      ranking := SortRanks(Ranks(p.constraints.preference, eligible));
      eligible := CandidatesOf(ranking);
    }
    var fallback := if p.constraints.explicitFallbackAllowed && p.mode != Manual then eligible[1..] else [];
    return Ok(Decision(eligible[0], eligible, rejected, ranking, fallback));
  }

  lemma {:induction false} InsertKeepsAll(r: Rank, sorted: seq<Rank>)
    ensures multiset(InsertRank(r, sorted)) == multiset(sorted) + multiset{r}
    ensures |InsertRank(r, sorted)| == |sorted| + 1
  {
    if sorted != [] {
      assert sorted == [sorted[0]] + sorted[1..];
      InsertKeepsAll(r, sorted[1..]);
    }
  }

  lemma {:induction false} SortKeepsAll(rs: seq<Rank>)
    ensures multiset(SortRanks(rs)) == multiset(rs) && |SortRanks(rs)| == |rs|
  {
    if rs != [] {
      assert rs == [rs[0]] + rs[1..];
      SortKeepsAll(rs[1..]);
      InsertKeepsAll(rs[0], SortRanks(rs[1..]));
    }
  }
}
