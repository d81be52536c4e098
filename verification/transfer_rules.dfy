/** The codes a transfer can be refused with, in the order of the checks (packages/shared/src/refusal.ts). */
module Refusals {
  datatype RefusalCode =
    | PolicyVersionMismatch
    | SenderStatusMissing
    | RecipientStatusMissing
    | StatusSourceNotAccepted
    | StatusSourceUnavailable
    | SenderDenied
    | RecipientDenied
    | RecipientTierTooLow
    | RecipientJurisdictionNotAllowed
    | TransferLimitExceeded
    | VelocityCounterMissing
    | PeriodLimitExceeded
    | UnknownRuleKind
    | TransfersPaused
    | AccountFrozen

  const REFUSAL_CODES: seq<RefusalCode> := [
    PolicyVersionMismatch, SenderStatusMissing, RecipientStatusMissing, StatusSourceNotAccepted,
    StatusSourceUnavailable, SenderDenied, RecipientDenied, RecipientTierTooLow,
    RecipientJurisdictionNotAllowed, TransferLimitExceeded, VelocityCounterMissing, PeriodLimitExceeded,
    UnknownRuleKind, TransfersPaused, AccountFrozen]

  /** The place of a code in the order of the checks. */
  function Rank(code: RefusalCode): (r: nat)
    ensures r < |REFUSAL_CODES| && REFUSAL_CODES[r] == code
  {
    match code
    case PolicyVersionMismatch => 0
    case SenderStatusMissing => 1
    case RecipientStatusMissing => 2
    case StatusSourceNotAccepted => 3
    case StatusSourceUnavailable => 4
    case SenderDenied => 5
    case RecipientDenied => 6
    case RecipientTierTooLow => 7
    case RecipientJurisdictionNotAllowed => 8
    case TransferLimitExceeded => 9
    case VelocityCounterMissing => 10
    case PeriodLimitExceeded => 11
    case UnknownRuleKind => 12
    case TransfersPaused => 13
    case AccountFrozen => 14
  }

  datatype Verdict = Allowed | Refused(code: RefusalCode)

  /** The verdict of a set of failing checks: the first of them in the order of the checks. */
  ghost predicate FirstFailing(fails: RefusalCode -> bool, verdict: Verdict) {
    match verdict
    case Allowed => forall c :: !fails(c)
    case Refused(code) => fails(code) && forall c :: Rank(c) < Rank(code) ==> !fails(c)
  }

  /** `w` is no milder than `v`: what `w` allows `v` allows, and `w` never refuses by a later check than `v`. */
  predicate NoMilder(v: Verdict, w: Verdict) {
    v.Refused? ==> w.Refused? && Rank(w.code) <= Rank(v.code)
  }

  lemma RankInjective(a: RefusalCode, b: RefusalCode)
    ensures Rank(a) == Rank(b) ==> a == b
  {
    assert REFUSAL_CODES[Rank(a)] == a;
    assert REFUSAL_CODES[Rank(b)] == b;
  }

  lemma SameFailuresSameVerdict(f: RefusalCode -> bool, g: RefusalCode -> bool, v: Verdict, w: Verdict)
    requires FirstFailing(f, v) && FirstFailing(g, w)
    requires forall c :: f(c) <==> g(c)
    ensures v == w
  {
    if v.Refused? && w.Refused? { RankInjective(v.code, w.code); }
  }

  lemma MoreFailuresNoMilder(f: RefusalCode -> bool, g: RefusalCode -> bool, v: Verdict, w: Verdict)
    requires FirstFailing(f, v) && FirstFailing(g, w)
    requires forall c :: f(c) ==> g(c)
    ensures NoMilder(v, w)
  {
  }
}

/** The evaluator of the console: policy and transfer context to a verdict (packages/policy/src/evaluate.ts). */
module TransferRules {
  import opened Common
  import opened PolicyModel
  import opened Refusals

  const SAFE_MAX := 0x1F_FFFF_FFFF_FFFF
  const U32_MAX := 0xFFFF_FFFF

  datatype StatusRecord = StatusRecord(denied: bool, tier: int, jurisdiction: string, expiresAt: Option<int>)

  datatype ProviderStatus = ProviderStatus(record: StatusRecord, issuedAt: int)

  /** `Unavailable` is not "no record": whether one exists is not known. */
  datatype SourceState<T> = Unavailable | Absent | Recorded(status: T)

  datatype PartyContext = PartyContext(provider: SourceState<ProviderStatus>, register: SourceState<StatusRecord>)

  datatype VelocityCounter = VelocityCounter(windowStart: int, spentInWindow: int)

  datatype TransferContext = TransferContext(
    sender: PartyContext,
    recipient: PartyContext,
    amount: int,
    velocity: Option<VelocityCounter>,
    mintPolicyVersion: int,
    policyVersion: int,
    now: int)

  predicate IsMoment(t: int) { 0 <= t <= SAFE_MAX }

  predicate ValidRecord(record: StatusRecord) {
    IsTier(record.tier) && IsCode(record.jurisdiction) && (record.expiresAt.Some? ==> IsMoment(record.expiresAt.value))
  }

  predicate ValidParty(party: PartyContext) {
    && (party.provider.Recorded? ==>
          ValidRecord(party.provider.status.record) && IsMoment(party.provider.status.issuedAt))
    && (party.register.Recorded? ==> ValidRecord(party.register.status))
  }

  predicate ValidContext(ctx: TransferContext) {
    && ValidParty(ctx.sender) && ValidParty(ctx.recipient)
    && IsU64(ctx.amount)
    && (ctx.velocity.Some? ==> IsMoment(ctx.velocity.value.windowStart) && IsU64(ctx.velocity.value.spentInWindow))
    && 0 <= ctx.mintPolicyVersion <= U32_MAX && 0 <= ctx.policyVersion <= U32_MAX
    && IsMoment(ctx.now)
  }

  /** A record is well formed: a tier of a byte, a two-letter country code, an expiry that is a time. */
  predicate WellFormed(record: StatusRecord) {
    && 0 <= record.tier <= 255
    && |record.jurisdiction| == 2 && (forall c :: c in record.jurisdiction ==> 'A' <= c <= 'Z')
    && (record.expiresAt.Some? ==> 0 <= record.expiresAt.value <= 9_007_199_254_740_991)
  }

  /** What the evaluator takes as input, in numbers. */
  lemma ContextIs(ctx: TransferContext)
    ensures ValidContext(ctx) <==>
            && (forall party :: party in {ctx.sender, ctx.recipient} ==>
                  && (party.register.Recorded? ==> WellFormed(party.register.status))
                  && (party.provider.Recorded? ==>
                        WellFormed(party.provider.status.record)
                        && 0 <= party.provider.status.issuedAt <= 9_007_199_254_740_991))
            && 0 <= ctx.amount <= 18_446_744_073_709_551_615
            && 0 <= ctx.mintPolicyVersion <= 4_294_967_295 && 0 <= ctx.policyVersion <= 4_294_967_295
            && 0 <= ctx.now <= 9_007_199_254_740_991
            && (ctx.velocity.Some? ==>
                  && 0 <= ctx.velocity.value.windowStart <= 9_007_199_254_740_991
                  && 0 <= ctx.velocity.value.spentInWindow <= 18_446_744_073_709_551_615)
  {
    forall record: StatusRecord ensures ValidRecord(record) <==> WellFormed(record) {
      if |record.jurisdiction| == 2 {
        var code := record.jurisdiction;
        assert code[0] in code && code[1] in code;
        assert forall c :: c in code <==> c == code[0] || c == code[1];
      }
    }
    assert ctx.sender in {ctx.sender, ctx.recipient} && ctx.recipient in {ctx.sender, ctx.recipient};
  }

  // ─── Merging the two sources ───────────────────────────────────────────────

  datatype Fact = Fact(source: Source, denied: bool, tier: int, jurisdiction: string)

  datatype PartyView = PartyView(current: seq<Fact>, accepted: seq<Fact>, unavailable: bool)

  predicate IsCurrent(expiresAt: Option<int>, now: int) {
    expiresAt.None? || now < expiresAt.value
  }

  predicate IsProviderCurrent(status: ProviderStatus, maxAge: Option<int>, now: int) {
    IsCurrent(status.record.expiresAt, now) && (maxAge.None? || now - status.issuedAt <= maxAge.value)
  }

  function ToFact(source: Source, record: StatusRecord): Fact {
    Fact(source, record.denied, record.tier, record.jurisdiction)
  }

  function ProviderFacts(party: PartyContext, policy: Policy, now: int): (r: seq<Fact>) {
    if party.provider.Recorded? && IsProviderCurrent(party.provider.status, policy.status.maxAge, now)
    then [ToFact(Provider, party.provider.status.record)] else []
  }

  function RegisterFacts(party: PartyContext, now: int): (r: seq<Fact>) {
    if party.register.Recorded? && IsCurrent(party.register.status.expiresAt, now)
    then [ToFact(Register, party.register.status)] else []
  }

  function AcceptedFacts(facts: seq<Fact>, sources: seq<Source>): (r: seq<Fact>)
    ensures forall f :: f in r <==> f in facts && f.source in sources
  {
    if facts == [] then []
    else
      assert facts == [facts[0]] + facts[1..];
      (if facts[0].source in sources then [facts[0]] else []) + AcceptedFacts(facts[1..], sources)
  }

  function View(party: PartyContext, policy: Policy, now: int): PartyView {
    var current := ProviderFacts(party, policy, now) + RegisterFacts(party, now);
    PartyView(current, AcceptedFacts(current, policy.status.sources),
              party.provider.Unavailable? || party.register.Unavailable?)
  }

  /** The record of one source speaks now, and says this. */
  predicate Speaks(party: PartyContext, policy: Policy, now: int, f: Fact) {
    match f.source
    case Provider =>
      party.provider.Recorded? && IsProviderCurrent(party.provider.status, policy.status.maxAge, now)
      && f == ToFact(Provider, party.provider.status.record)
    case Register =>
      party.register.Recorded? && IsCurrent(party.register.status.expiresAt, now)
      && f == ToFact(Register, party.register.status)
  }

  /**
   * The facts are what the sources say now, each source at most once; the accepted ones are those
   * of them whose source the rule accepts; and a source that does not answer, accepted or not, is noted.
   */
  method ViewParty(party: PartyContext, policy: Policy, now: int) returns (view: PartyView)
    ensures view == View(party, policy, now)
    ensures forall f :: f in view.current <==> Speaks(party, policy, now, f)
    ensures forall i, j :: 0 <= i < j < |view.current| ==> view.current[i].source != view.current[j].source
    ensures forall f :: f in view.accepted <==> f in view.current && f.source in policy.status.sources
    ensures view.unavailable <==> party.provider.Unavailable? || party.register.Unavailable?
  {
    var current: seq<Fact> := [];
    var unavailable := false;
    if party.provider.Unavailable? {
      unavailable := true;
    } else if party.provider.Recorded? && IsProviderCurrent(party.provider.status, policy.status.maxAge, now) {
      current := current + [ToFact(Provider, party.provider.status.record)];
    }
    if party.register.Unavailable? {
      unavailable := true;
    } else if party.register.Recorded? && IsCurrent(party.register.status.expiresAt, now) {
      current := current + [ToFact(Register, party.register.status)];
    }
    assert current == ProviderFacts(party, policy, now) + RegisterFacts(party, now);
    view := PartyView(current, AcceptedFacts(current, policy.status.sources), unavailable);
  }

  predicate NothingKnown(party: PartyView) { !party.unavailable && party.current == [] }

  predicate OnlyUnaccepted(party: PartyView) { party.current != [] && party.accepted == [] }

  predicate DeniedBy(facts: seq<Fact>) { exists f :: f in facts && f.denied }

  /** The lowest tier among the facts, zero when there are none. */
  function MergedTier(facts: seq<Fact>): int {
    if facts == [] then 0
    else if |facts| == 1 then facts[0].tier
    else Min(facts[0].tier, MergedTier(facts[1..]))
  }

  predicate JurisdictionRefused(facts: seq<Fact>, allowed: Option<seq<string>>) {
    allowed.Some? && exists f :: f in facts && f.jurisdiction !in allowed.value
  }

  function SpentNow(velocity: VelocityCounter, windowSeconds: int, now: int): int {
    if now < velocity.windowStart + windowSeconds then velocity.spentInWindow else 0
  }

  predicate PeriodExceeded(policy: Policy, ctx: TransferContext) {
    && policy.periodLimit.Some? && ctx.velocity.Some?
    && SpentNow(ctx.velocity.value, policy.periodLimit.value.windowSeconds, ctx.now) + ctx.amount
       > policy.periodLimit.value.amount
  }

  // ─── Checks ────────────────────────────────────────────────────────────────

  datatype Subject = Subject(policy: Policy, ctx: TransferContext, sender: PartyView, recipient: PartyView)

  /** The table of checks. The last three codes are decided elsewhere and never fail here. */
  predicate Fails(code: RefusalCode, s: Subject) {
    match code
    case PolicyVersionMismatch => s.ctx.policyVersion != s.ctx.mintPolicyVersion
    case SenderStatusMissing => NothingKnown(s.sender)
    case RecipientStatusMissing => NothingKnown(s.recipient)
    case StatusSourceNotAccepted => OnlyUnaccepted(s.sender) || OnlyUnaccepted(s.recipient)
    case StatusSourceUnavailable => s.sender.unavailable || s.recipient.unavailable
    case SenderDenied => DeniedBy(s.sender.current)
    case RecipientDenied => DeniedBy(s.recipient.current)
    case RecipientTierTooLow => MergedTier(s.recipient.accepted) < s.policy.status.minTier
    case RecipientJurisdictionNotAllowed => JurisdictionRefused(s.recipient.accepted, s.policy.jurisdictions)
    case TransferLimitExceeded => s.policy.transferLimit.Some? && s.ctx.amount > s.policy.transferLimit.value
    case VelocityCounterMissing => s.policy.periodLimit.Some? && s.ctx.velocity.None?
    case PeriodLimitExceeded => PeriodExceeded(s.policy, s.ctx)
    case UnknownRuleKind => false
    case TransfersPaused => false
    case AccountFrozen => false
  }

  function SubjectOf(policy: Policy, ctx: TransferContext): Subject {
    Subject(policy, ctx, View(ctx.sender, policy, ctx.now), View(ctx.recipient, policy, ctx.now))
  }

  function FirstOf(codes: seq<RefusalCode>, s: Subject): Verdict {
    if codes == [] then Allowed
    else if Fails(codes[0], s) then Refused(codes[0])
    else FirstOf(codes[1..], s)
  }

  datatype InputError = InvalidPolicy | InvalidContext

  /** The verdict on checked inputs. */
  function Judge(policy: Policy, ctx: TransferContext): Verdict {
    FirstOf(REFUSAL_CODES, SubjectOf(Normalise(policy), ctx))
  }

  lemma {:induction false} FirstOfFails(k: nat, s: Subject)
    requires k <= |REFUSAL_CODES|
    requires forall c :: Rank(c) < k ==> !Fails(c, s)
    ensures FirstFailing(c => Fails(c, s), FirstOf(REFUSAL_CODES[k..], s))
    decreases |REFUSAL_CODES| - k
  {
    if k < |REFUSAL_CODES| {
      var code := REFUSAL_CODES[k];
      assert Rank(code) == k;
      if !Fails(code, s) {
        forall c | Rank(c) < k + 1 ensures !Fails(c, s) { RankInjective(c, code); }
        FirstOfFails(k + 1, s);
      }
    }
  }

  /** The verdict is the first failing check, whatever the inputs. */
  lemma JudgeIsFirst(policy: Policy, ctx: TransferContext)
    ensures FirstFailing(c => Fails(c, SubjectOf(Normalise(policy), ctx)), Judge(policy, ctx))
  {
    FirstOfFails(0, SubjectOf(Normalise(policy), ctx));
    assert REFUSAL_CODES[0..] == REFUSAL_CODES;
  }

  method EvaluateTransfer(rules: Policy, context: TransferContext) returns (r: Result<Verdict, InputError>)
    ensures r.Ok? <==> Valid(rules) && ValidContext(context)
    ensures r.Ok? ==> r.value == Judge(rules, context)
    ensures r.Ok? ==> FirstFailing(c => Fails(c, SubjectOf(Normalise(rules), context)), r.value)
  {
    var parsed := Parse(rules);
    if parsed.None? { return Err(InvalidPolicy); }
    if !ValidContext(context) { return Err(InvalidContext); }
    var policy := parsed.value;
    var sender := ViewParty(context.sender, policy, context.now);
    var recipient := ViewParty(context.recipient, policy, context.now);
    var subject := Subject(policy, context, sender, recipient);
    JudgeIsFirst(rules, context);
    for i := 0 to |REFUSAL_CODES|
      invariant Judge(rules, context) == FirstOf(REFUSAL_CODES[i..], subject)
    {
      var code := REFUSAL_CODES[i];
      if Fails(code, subject) { return Ok(Refused(code)); }
      assert REFUSAL_CODES[i..][1..] == REFUSAL_CODES[i + 1..];
    }
    r := Ok(Allowed);
  }

  // ─── The token program's layer ─────────────────────────────────────────────

  datatype TokenState = TokenState(paused: bool, senderFrozen: bool, recipientFrozen: bool)

  const OPEN_TOKEN := TokenState(false, false, false)

  /** The answer a holder gets: the token program refuses a paused token and a frozen account first. */
  function Simulate(policy: Policy, ctx: TransferContext, token: TokenState): Verdict {
    if token.paused then Refused(TransfersPaused)
    else if token.senderFrozen || token.recipientFrozen then Refused(AccountFrozen)
    else Judge(policy, ctx)
  }
}
