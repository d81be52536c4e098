/** The policy body: what it may say, and its normal form (packages/policy/src/model.ts). */
module PolicyModel {
  import opened Common
  import opened Ordering

  const MAX_RULE_SLOTS := 16
  const RULE_SLOT_BYTES := 24
  const RULE_PARAMS_BYTES := 22
  const RULES_BYTES := 384
  const MAX_JURISDICTIONS := 11
  const MIN_PERIOD_SECONDS := 3600
  const MAX_PERIOD_SECONDS := 31 * 24 * 3600
  const MIN_ATTESTATION_AGE_SECONDS := 3600
  const MAX_ATTESTATION_AGE_SECONDS := 365 * 24 * 3600

  const KIND_STATUS: byte := 1
  const KIND_JURISDICTIONS: byte := 2
  const KIND_TRANSFER_LIMIT: byte := 3
  const KIND_PERIOD_LIMIT: byte := 4

  datatype Source = Provider | Register

  const SOURCES: seq<Source> := [Provider, Register]

  datatype StatusRule = StatusRule(sources: seq<Source>, minTier: int, maxAge: Option<int>)

  datatype PeriodLimit = PeriodLimit(amount: int, windowSeconds: int)

  datatype Policy = Policy(
    status: StatusRule,
    jurisdictions: Option<seq<string>>,
    transferLimit: Option<int>,
    periodLimit: Option<PeriodLimit>)

  predicate IsTier(tier: int) { 0 <= tier <= 255 }

  predicate IsLimit(amount: int) { 0 < amount <= U64_MAX }

  /** An upper-case ISO 3166-1 alpha-2 code. */
  predicate IsCode(code: string) {
    |code| == 2 && 'A' <= code[0] <= 'Z' && 'A' <= code[1] <= 'Z'
  }

  predicate AllDistinct<T(==)>(s: seq<T>) {
    forall i, j :: 0 <= i < j < |s| ==> s[i] != s[j]
  }

  predicate ValidStatus(rule: StatusRule) {
    && 1 <= |rule.sources| <= |SOURCES|
    && AllDistinct(rule.sources)
    && IsTier(rule.minTier)
    && (rule.maxAge.Some? ==> MIN_ATTESTATION_AGE_SECONDS <= rule.maxAge.value <= MAX_ATTESTATION_AGE_SECONDS)
    && (Provider in rule.sources ==> rule.maxAge.Some?)
  }

  predicate ValidJurisdictions(codes: seq<string>) {
    && 1 <= |codes| <= MAX_JURISDICTIONS
    && (forall i :: 0 <= i < |codes| ==> IsCode(codes[i]))
    && AllDistinct(codes)
  }

  predicate ValidPeriod(limit: PeriodLimit) {
    IsLimit(limit.amount) && MIN_PERIOD_SECONDS <= limit.windowSeconds <= MAX_PERIOD_SECONDS
  }

  predicate Valid(policy: Policy) {
    && ValidStatus(policy.status)
    && (policy.jurisdictions.Some? ==> ValidJurisdictions(policy.jurisdictions.value))
    && (policy.transferLimit.Some? ==> IsLimit(policy.transferLimit.value))
    && (policy.periodLimit.Some? ==> ValidPeriod(policy.periodLimit.value))
  }

  /** What a policy may say, in numbers. */
  lemma ValidIs(policy: Policy)
    ensures Valid(policy) <==>
            && 1 <= |policy.status.sources| <= 2 && AllDistinct(policy.status.sources) && 0 <= policy.status.minTier <= 255
            && (policy.status.maxAge.Some? ==> 3_600 <= policy.status.maxAge.value <= 31_536_000)
            && (Provider in policy.status.sources ==> policy.status.maxAge.Some?)
            && (policy.jurisdictions.Some? ==>
                  && 1 <= |policy.jurisdictions.value| <= 11 && AllDistinct(policy.jurisdictions.value)
                  && forall code :: code in policy.jurisdictions.value ==> |code| == 2 && forall c :: c in code ==> 'A' <= c <= 'Z')
            && (policy.transferLimit.Some? ==> 0 < policy.transferLimit.value <= 18_446_744_073_709_551_615)
            && (policy.periodLimit.Some? ==>
                  && 0 < policy.periodLimit.value.amount <= 18_446_744_073_709_551_615
                  && 3_600 <= policy.periodLimit.value.windowSeconds <= 2_678_400)
  {
    forall code: string ensures IsCode(code) <==> |code| == 2 && forall c :: c in code ==> 'A' <= c <= 'Z' {
      if |code| == 2 {
        assert code[0] in code && code[1] in code;
        assert forall c :: c in code <==> c == code[0] || c == code[1];
      }
    }
  }

  /** The sources in the order of the tuple, whatever order they were written in. */
  function CanonicalSources(sources: seq<Source>): seq<Source> {
    (if Provider in sources then [Provider] else []) + (if Register in sources then [Register] else [])
  }

  function SortCodes(codes: seq<string>): seq<string> {
    Sort(codes, Before)
  }

  function Normalise(policy: Policy): Policy {
    policy.(
    status := policy.status.(sources := CanonicalSources(policy.status.sources)),
    jurisdictions := if policy.jurisdictions.Some? then Some(SortCodes(policy.jurisdictions.value)) else None)
  }

  predicate Normal(policy: Policy) {
    Normalise(policy) == policy
  }

  /** The schema: a policy outside the model is refused, any other is brought to its normal form. */
  function Parse(policy: Policy): Option<Policy> {
    if Valid(policy) then Some(Normalise(policy)) else None
  }

  function UsedRuleSlots(policy: Policy): nat {
    1
    + (if policy.jurisdictions.Some? then 1 else 0)
    + (if policy.transferLimit.Some? then 1 else 0)
    + (if policy.periodLimit.Some? then 1 else 0)
  }

  lemma SortedCodes(codes: seq<string>)
    requires ValidJurisdictions(codes)
    ensures ValidJurisdictions(SortCodes(codes)) && Ascending(SortCodes(codes), Before)
    ensures forall c :: c in SortCodes(codes) <==> c in codes
    ensures SortCodes(SortCodes(codes)) == SortCodes(codes)
  {
    BeforeIsOrder();
    SortAscending(codes, Before);
    SortMembers(codes, Before);
    var r := SortCodes(codes);
    AscendingDistinct(r, Before);
    forall i | 0 <= i < |r| ensures IsCode(r[i]) { assert r[i] in codes; }
    SortIdentity(r, Before);
  }

  lemma CanonicalMembers(sources: seq<Source>)
    ensures forall s :: s in CanonicalSources(sources) <==> s in sources
    ensures |sources| > 0 ==> |CanonicalSources(sources)| > 0
  {
    forall s ensures s in CanonicalSources(sources) <==> s in sources {
      match s
      case Provider =>
      case Register =>
    }
    if |sources| > 0 { assert sources[0] in CanonicalSources(sources); }
  }

  lemma NormaliseValid(policy: Policy)
    requires Valid(policy)
    ensures Valid(Normalise(policy)) && Normal(Normalise(policy))
  {
    CanonicalMembers(policy.status.sources);
    if policy.jurisdictions.Some? { SortedCodes(policy.jurisdictions.value); }
  }

  /** Two policies that say the same: every list read as the set it stands for. */
  ghost predicate SameContent(p: Policy, q: Policy) {
    && (forall s :: s in p.status.sources <==> s in q.status.sources)
    && p.status.minTier == q.status.minTier
    && p.status.maxAge == q.status.maxAge
    && p.jurisdictions.Some? == q.jurisdictions.Some?
    && (p.jurisdictions.Some? ==> forall c :: c in p.jurisdictions.value <==> c in q.jurisdictions.value)
    && p.transferLimit == q.transferLimit
    && p.periodLimit == q.periodLimit
  }

  lemma SortNamesSet(a: seq<string>, b: seq<string>)
    requires ValidJurisdictions(a) && ValidJurisdictions(b)
    ensures SortCodes(a) == SortCodes(b) <==> (forall c :: c in a <==> c in b)
  {
    SortedCodes(a);
    SortedCodes(b);
    if forall c :: c in a <==> c in b {
      BeforeIsOrder();
      AscendingUnique(SortCodes(a), SortCodes(b), Before);
    } else {
      var c :| !(c in a <==> c in b);
      assert c in SortCodes(a) <==> c in a;
      assert c in SortCodes(b) <==> c in b;
    }
  }

  lemma CanonicalNamesSet(a: seq<Source>, b: seq<Source>)
    ensures CanonicalSources(a) == CanonicalSources(b) <==> (forall s :: s in a <==> s in b)
  {
    CanonicalMembers(a);
    CanonicalMembers(b);
    if !(forall s :: s in a <==> s in b) {
      var s :| !(s in a <==> s in b);
      assert s in CanonicalSources(a) <==> s in a;
      assert s in CanonicalSources(b) <==> s in b;
    }
  }

  /** The normal form names the content: equal exactly for policies that say the same. */
  lemma NormaliseCanonical(p: Policy, q: Policy)
    requires Valid(p) && Valid(q)
    ensures Normalise(p) == Normalise(q) <==> SameContent(p, q)
  {
    CanonicalNamesSet(p.status.sources, q.status.sources);
    if p.jurisdictions.Some? && q.jurisdictions.Some? {
      SortNamesSet(p.jurisdictions.value, q.jurisdictions.value);
    }
  }
}
