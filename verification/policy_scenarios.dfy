/** The five questions the wizard asks a policy, derived from the policy itself (packages/policy/src/scenarios.ts). */
module PolicyScenarios {
  import opened Common
  import opened PolicyModel
  import opened Refusals
  import opened TransferRules

  datatype ScenarioName = Verified | Unverified | OverLimit | DeniedRecipient | Paused

  const SIMULATED_JURISDICTION := "UA"
  const SIMULATED_POLICY_VERSION := 1
  const MINIMAL_AMOUNT := 1

  datatype Scenario = Scenario(
    name: ScenarioName, applicable: bool, amount: int, context: TransferContext, token: TokenState)

  function SimulatedRecord(policy: Policy, denied: bool): StatusRecord {
    var jurisdiction := if policy.jurisdictions.Some? && policy.jurisdictions.value != []
                        then policy.jurisdictions.value[0] else SIMULATED_JURISDICTION;
    StatusRecord(denied, policy.status.minTier, jurisdiction, None)
  }

  /** A party with a record in exactly the sources the policy accepts, or with none at all. */
  function SimulatedParty(policy: Policy, now: int, known: bool, denied: bool): PartyContext {
    var record := SimulatedRecord(policy, denied);
    PartyContext(
      if known && Provider in policy.status.sources then Recorded(ProviderStatus(record, now)) else Absent,
      if known && Register in policy.status.sources then Recorded(record) else Absent)
  }

  /** The limits a policy has, the per-transfer one first. */
  function Limits(policy: Policy): seq<int> {
    (if policy.transferLimit.Some? then [policy.transferLimit.value] else [])
    + (if policy.periodLimit.Some? then [policy.periodLimit.value.amount] else [])
  }

  function Least(limits: seq<int>): (r: int)
    requires limits != []
    ensures r in limits && forall x :: x in limits ==> r <= x
  {
    assert limits == [limits[0]] + limits[1..];
    if |limits| == 1 then limits[0] else Min(limits[0], Least(limits[1..]))
  }

  function BindingLimit(policy: Policy): Option<int> {
    if Limits(policy) == [] then None else Some(Least(Limits(policy)))
  }

  function SimulatedContext(policy: Policy, now: int, amount: int, recipient: PartyContext): TransferContext {
    TransferContext(
      SimulatedParty(policy, now, true, false), recipient, amount,
      if policy.periodLimit.None? then None else Some(VelocityCounter(now, 0)),
      SIMULATED_POLICY_VERSION, SIMULATED_POLICY_VERSION, now)
  }

  function ScenarioOf(policy: Policy, name: ScenarioName, now: int): Scenario {
    var limit := BindingLimit(policy);
    var withinLimit := if limit.Some? then limit.value else MINIMAL_AMOUNT;
    var exceeds := limit.Some? && limit.value < U64_MAX;
    var amount := if name == OverLimit && exceeds then withinLimit + 1 else withinLimit;
    var recipient := SimulatedParty(policy, now, name != Unverified, name == DeniedRecipient);
    Scenario(name, name == OverLimit ==> exceeds, amount, SimulatedContext(policy, now, amount, recipient),
             if name == Paused then OPEN_TOKEN.(paused := true) else OPEN_TOKEN)
  }

  function BuildScenario(rules: Policy, name: ScenarioName, now: int): Option<Scenario> {
    if Valid(rules) && IsMoment(now) then Some(ScenarioOf(Normalise(rules), name, now)) else None
  }

  datatype ScenarioResult = ScenarioResult(scenario: Scenario, verdict: Verdict)

  function SimulateScenarios(rules: Policy, names: seq<ScenarioName>, now: int): (r: seq<ScenarioResult>)
    requires Valid(rules) && IsMoment(now)
    ensures |r| == |names|
  {
    seq(|names|, i requires 0 <= i < |names| =>
      var scenario := BuildScenario(rules, names[i], now).value;
      ScenarioResult(scenario, Simulate(rules, scenario.context, scenario.token)))
  }

  // ─── What the scenarios answer ─────────────────────────────────────────────

  lemma {:induction false} AllAccepted(facts: seq<Fact>, sources: seq<Source>)
    requires forall f :: f in facts ==> f.source in sources
    ensures AcceptedFacts(facts, sources) == facts
  {
    if facts != [] { AllAccepted(facts[1..], sources); }
  }

  /** A known simulated party: every fact comes from an accepted source and says the same. */
  lemma KnownPartyView(policy: Policy, now: int, denied: bool)
    requires Valid(policy) && IsMoment(now)
    ensures
      var v := View(SimulatedParty(policy, now, true, denied), policy, now);
      var record := SimulatedRecord(policy, denied);
      && !v.unavailable && v.current != [] && v.accepted == v.current
      && (forall f :: f in v.current ==> f.denied == denied && f.jurisdiction == record.jurisdiction)
      && MergedTier(v.accepted) == policy.status.minTier
  {
    var party := SimulatedParty(policy, now, true, denied);
    var p, r := ProviderFacts(party, policy, now), RegisterFacts(party, now);
    var sources := policy.status.sources;
    assert sources[0] in sources;
    assert sources[0] == Provider || sources[0] == Register;
    assert |p| == 1 <==> Provider in sources;
    assert |r| == 1 <==> Register in sources;
    AllAccepted(p + r, sources);
    assert forall f: Fact :: f in p + r ==> f.tier == policy.status.minTier;
    SameTier(p + r, policy.status.minTier);
  }

  lemma {:induction false} SameTier(facts: seq<Fact>, tier: int)
    requires facts != [] && forall f :: f in facts ==> f.tier == tier
    ensures MergedTier(facts) == tier
  {
    assert facts[0] in facts;
    if |facts| > 1 { SameTier(facts[1..], tier); }
  }

  lemma AbsentPartyView(policy: Policy, now: int)
    ensures NothingKnown(View(SimulatedParty(policy, now, false, false), policy, now))
  {
  }

  lemma SimulatedContextValid(policy: Policy, name: ScenarioName, now: int)
    requires Valid(policy) && IsMoment(now)
    ensures ValidContext(ScenarioOf(policy, name, now).context)
  {
    if policy.jurisdictions.Some? { assert IsCode(policy.jurisdictions.value[0]); }
    if BindingLimit(policy).Some? { LeastLimit(policy); }
  }

  lemma VerdictIs(policy: Policy, ctx: TransferContext, verdict: Verdict)
    requires Normal(policy)
    requires verdict.Refused? ==> Fails(verdict.code, SubjectOf(policy, ctx))
    requires forall c :: (verdict.Refused? ==> Rank(c) < Rank(verdict.code)) ==> !Fails(c, SubjectOf(policy, ctx))
    ensures Judge(policy, ctx) == verdict
  {
    JudgeIsFirst(policy, ctx);
    var f := c => Fails(c, SubjectOf(policy, ctx));
    SameFailuresSameVerdict(f, f, Judge(policy, ctx), verdict);
  }

  /** The limit that binds first: the smaller one, the per-transfer limit on a tie. */
  function BindingCode(policy: Policy): RefusalCode {
    if policy.transferLimit.Some?
       && (policy.periodLimit.None? || policy.transferLimit.value <= policy.periodLimit.value.amount)
    then TransferLimitExceeded else PeriodLimitExceeded
  }

  /** What each scenario is there to show. */
  function Expected(policy: Policy, name: ScenarioName): Verdict {
    match name
    case Verified => Allowed
    case Unverified => Refused(RecipientStatusMissing)
    case OverLimit =>
      if BindingLimit(policy).Some? && BindingLimit(policy).value < U64_MAX
      then Refused(BindingCode(policy)) else Allowed
    case DeniedRecipient => Refused(RecipientDenied)
    case Paused => Refused(TransfersPaused)
  }

  /** Which of the checks on the parties fail for a simulated transfer. */
  lemma StatusChecks(policy: Policy, now: int, amount: int, known: bool, denied: bool, code: RefusalCode)
    requires Valid(policy) && IsMoment(now) && (denied ==> known)
    requires Rank(code) < Rank(if known then TransferLimitExceeded else StatusSourceNotAccepted)
    ensures
      var s := SubjectOf(policy, SimulatedContext(policy, now, amount, SimulatedParty(policy, now, known, denied)));
      Fails(code, s) <==> (code == RecipientDenied && denied) || (code == RecipientStatusMissing && !known)
  {
    KnownPartyView(policy, now, false);
    AbsentPartyView(policy, now);
    var s := SubjectOf(policy, SimulatedContext(policy, now, amount, SimulatedParty(policy, now, known, denied)));
    if known {
      KnownPartyView(policy, now, denied);
      assert s.recipient.current[0] in s.recipient.current;
      if policy.jurisdictions.Some? { assert policy.jurisdictions.value[0] in policy.jurisdictions.value; }
    }
  }

  /** The binding limit is the smaller of those set, the transfer's on a tie, and there is none exactly when none is set. */
  lemma LeastLimit(policy: Policy)
    ensures BindingLimit(policy).None? <==> policy.transferLimit.None? && policy.periodLimit.None?
    ensures policy.transferLimit.Some? ==> BindingLimit(policy).value <= policy.transferLimit.value
    ensures policy.periodLimit.Some? ==> BindingLimit(policy).value <= policy.periodLimit.value.amount
    ensures BindingLimit(policy).Some? && BindingCode(policy) == TransferLimitExceeded ==>
              BindingLimit(policy) == policy.transferLimit
    ensures BindingLimit(policy).Some? && BindingCode(policy) == PeriodLimitExceeded ==>
              policy.periodLimit.Some? && BindingLimit(policy).value == policy.periodLimit.value.amount
              && (policy.transferLimit.Some? ==> BindingLimit(policy).value < policy.transferLimit.value)
  {
    var limits := Limits(policy);
    assert policy.transferLimit.Some? ==> limits[0] == policy.transferLimit.value;
    assert policy.periodLimit.Some? ==> limits[|limits| - 1] == policy.periodLimit.value.amount;
    assert forall i :: 0 <= i < |limits| ==> limits[i] in limits;
  }

  /** Which of the checks on the amount fail for a simulated transfer. */
  lemma LimitChecks(policy: Policy, now: int, amount: int, recipient: PartyContext, code: RefusalCode)
    requires Valid(policy) && Rank(code) >= Rank(TransferLimitExceeded)
    ensures
      Fails(code, SubjectOf(policy, SimulatedContext(policy, now, amount, recipient))) <==>
      || (code == TransferLimitExceeded && policy.transferLimit.Some? && amount > policy.transferLimit.value)
      || (code == PeriodLimitExceeded && policy.periodLimit.Some? && amount > policy.periodLimit.value.amount)
  {
  }

  lemma ScenarioJudged(policy: Policy, name: ScenarioName, now: int)
    requires Valid(policy) && Normal(policy) && IsMoment(now) && name != Paused
    ensures Judge(policy, ScenarioOf(policy, name, now).context) == Expected(policy, name)
  {
    var scenario := ScenarioOf(policy, name, now);
    var expected := Expected(policy, name);
    forall c | expected.Refused? ==> Rank(c) <= Rank(expected.code)
      ensures Fails(c, SubjectOf(policy, scenario.context)) <==> expected == Refused(c)
    {
      ScenarioCheck(policy, name, now, c);
    }
    VerdictIs(policy, scenario.context, expected);
  }

  lemma ScenarioCheck(policy: Policy, name: ScenarioName, now: int, c: RefusalCode)
    requires Valid(policy) && Normal(policy) && IsMoment(now) && name != Paused
    requires Expected(policy, name).Refused? ==> Rank(c) <= Rank(Expected(policy, name).code)
    ensures Fails(c, SubjectOf(policy, ScenarioOf(policy, name, now).context)) <==> Expected(policy, name) == Refused(c)
  {
    var scenario := ScenarioOf(policy, name, now);
    var known, denied := name != Unverified, name == DeniedRecipient;
    LeastLimit(policy);
    if Rank(c) >= Rank(TransferLimitExceeded) {
      LimitChecks(policy, now, scenario.amount, SimulatedParty(policy, now, known, denied), c);
    } else {
      StatusChecks(policy, now, scenario.amount, known, denied, c);
    }
    if Expected(policy, name).Refused? { RankInjective(c, Expected(policy, name).code); }
  }

  /**
   * For every valid policy at every time: a verified transfer of exactly the binding limit is
   * allowed, an unverified recipient is missing, a denied one is denied, a paused token is paused,
   * and one unit over the limit is refused by the limit that binds first.
   */
  lemma ScenariosAnswer(rules: Policy, name: ScenarioName, now: int)
    requires Valid(rules) && IsMoment(now)
    ensures
      var scenario := BuildScenario(rules, name, now).value;
      && ValidContext(scenario.context)
      && Simulate(rules, scenario.context, scenario.token) == Expected(Normalise(rules), name)
      && (name == Verified && BindingLimit(rules).Some? ==> scenario.amount == BindingLimit(rules).value)
      && (name == OverLimit && scenario.applicable ==> scenario.amount == BindingLimit(rules).value + 1)
      && (BindingLimit(rules).None? ==> scenario.amount == 1)
      && (name == OverLimit ==> (scenario.applicable <==> BindingLimit(rules).Some? && BindingLimit(rules).value < U64_MAX))
      && (!scenario.applicable ==> Simulate(rules, scenario.context, scenario.token) == Allowed)
  {
    NormaliseValid(rules);
    var policy := Normalise(rules);
    SimulatedContextValid(policy, name, now);
    if name != Paused { ScenarioJudged(policy, name, now); }
    assert Normalise(policy) == policy;
  }

  /** A scenario is built exactly for a valid policy and a time that is one. */
  lemma BuiltExactly(rules: Policy, name: ScenarioName, now: int)
    ensures BuildScenario(rules, name, now).Some? <==> Valid(rules) && 0 <= now <= 0x1F_FFFF_FFFF_FFFF
  {
  }

  /** The list of results holds, name by name, the scenario and the verdict it is there to show. */
  lemma SimulatedAnswers(rules: Policy, names: seq<ScenarioName>, now: int, i: nat)
    requires Valid(rules) && IsMoment(now) && i < |names|
    ensures
      var result := SimulateScenarios(rules, names, now)[i];
      Some(result.scenario) == BuildScenario(rules, names[i], now)
      && result.verdict == Expected(Normalise(rules), names[i])
  {
    ScenariosAnswer(rules, names[i], now);
  }
}
