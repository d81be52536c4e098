/** What the order of the checks and the merging of the two sources guarantee for every policy and transfer. */
module TransferLaws {
  import opened Common
  import opened PolicyModel
  import opened Refusals
  import opened TransferRules

  // ─── Relaxing a policy ─────────────────────────────────────────────────────

  /**
   * `q` asks no more than `p`: a lower tier, more jurisdictions or none asked, higher limits or
   * none, a shorter window. The sources and the age of an attestation stay as they are: a longer
   * age would bring a stale denial back.
   */
  ghost predicate Relaxes(p: Policy, q: Policy) {
    && (forall s :: s in p.status.sources <==> s in q.status.sources)
    && p.status.maxAge == q.status.maxAge
    && q.status.minTier <= p.status.minTier
    && (q.jurisdictions.Some? ==>
          p.jurisdictions.Some? && forall c :: c in p.jurisdictions.value ==> c in q.jurisdictions.value)
    && (q.transferLimit.Some? ==> p.transferLimit.Some? && p.transferLimit.value <= q.transferLimit.value)
    && (q.periodLimit.Some? ==>
          && p.periodLimit.Some?
          && p.periodLimit.value.amount <= q.periodLimit.value.amount
          && q.periodLimit.value.windowSeconds <= p.periodLimit.value.windowSeconds)
  }

  lemma RelaxedNormal(p: Policy, q: Policy)
    requires Valid(p) && Valid(q) && Relaxes(p, q)
    ensures Relaxes(Normalise(p), Normalise(q))
    ensures Normalise(p).status.sources == Normalise(q).status.sources
  {
    CanonicalMembers(p.status.sources);
    CanonicalMembers(q.status.sources);
    CanonicalNamesSet(p.status.sources, q.status.sources);
    if p.jurisdictions.Some? { SortedCodes(p.jurisdictions.value); }
    if q.jurisdictions.Some? { SortedCodes(q.jurisdictions.value); }
  }

  lemma RelaxedFailsLess(p: Policy, q: Policy, ctx: TransferContext, amount: int, code: RefusalCode)
    requires Relaxes(p, q) && p.status.sources == q.status.sources
    requires ctx.velocity.Some? ==> 0 <= ctx.velocity.value.spentInWindow
    requires amount <= ctx.amount
    requires Fails(code, SubjectOf(q, ctx.(amount := amount)))
    ensures Fails(code, SubjectOf(p, ctx))
  {
    assert View(ctx.sender, p, ctx.now) == View(ctx.sender, q, ctx.now);
    assert View(ctx.recipient, p, ctx.now) == View(ctx.recipient, q, ctx.now);
  }

  /**
   * Relaxing the policy or lowering the amount never turns an allow into a refusal, and a refusal
   * that remains is never by an earlier check.
   */
  lemma RelaxingNeverRefuses(p: Policy, q: Policy, ctx: TransferContext, amount: int)
    requires Valid(p) && Valid(q) && Relaxes(p, q) && ValidContext(ctx) && 0 <= amount <= ctx.amount
    ensures NoMilder(Judge(q, ctx.(amount := amount)), Judge(p, ctx))
  {
    var lower := ctx.(amount := amount);
    RelaxedNormal(p, q);
    JudgeIsFirst(p, ctx);
    JudgeIsFirst(q, lower);
    var f := c => Fails(c, SubjectOf(Normalise(q), lower));
    var g := c => Fails(c, SubjectOf(Normalise(p), ctx));
    forall c | f(c) ensures g(c) { RelaxedFailsLess(Normalise(p), Normalise(q), ctx, amount, c); }
    MoreFailuresNoMilder(f, g, Judge(q, lower), Judge(p, ctx));
  }

  // ─── The second source ─────────────────────────────────────────────────────

  /** A current record of this party from this source, and the policy accepts the source. */
  ghost predicate AcceptedRecord(party: PartyContext, source: Source, policy: Policy, now: int) {
    && source in policy.status.sources
    && match source
       case Provider =>
         party.provider.Recorded? && IsProviderCurrent(party.provider.status, policy.status.maxAge, now)
       case Register => party.register.Recorded? && IsCurrent(party.register.status.expiresAt, now)
  }

  /** `after` keeps what `source` says and hears something, whatever it is, from the source that was silent. */
  ghost predicate HearsOther(source: Source, before: PartyContext, after: PartyContext) {
    match source
    case Provider => before.provider == after.provider && before.register.Absent?
    case Register => before.register == after.register && before.provider.Absent?
  }

  lemma OneFact(before: PartyContext, source: Source, other: PartyContext, policy: Policy, now: int)
    requires AcceptedRecord(before, source, policy, now) && HearsOther(source, before, other)
    ensures exists f ::
      && View(before, policy, now) == PartyView([f], [f], false)
      && f in View(other, policy, now).current && f in View(other, policy, now).accepted
  {
    var f := if source == Provider then ToFact(Provider, before.provider.status.record)
             else ToFact(Register, before.register.status);
    var v := View(before, policy, now);
    match source
    case Provider => assert v.current == [f];
    case Register => assert v.current == [f];
    assert f in View(other, policy, now).current;
    assert AcceptedFacts([f], policy.status.sources) == [f] + AcceptedFacts([], policy.status.sources);
  }

  lemma {:induction false} LowestTier(facts: seq<Fact>, f: Fact)
    requires f in facts
    ensures MergedTier(facts) <= f.tier
  {
    if |facts| > 1 && f != facts[0] {
      assert f in facts[1..];
      LowestTier(facts[1..], f);
    }
  }

  /** Party by party: either nothing changed, or a second source began to speak beside an accepted one. */
  ghost predicate OnlyHeardMore(before: PartyContext, after: PartyContext, policy: Policy, now: int) {
    before == after
    || exists source :: AcceptedRecord(before, source, policy, now) && HearsOther(source, before, after)
  }

  /** The view is the same, or one accepted fact has company now. */
  ghost predicate Widened(p: PartyView, q: PartyView) {
    p == q || exists f :: p == PartyView([f], [f], false) && f in q.current && f in q.accepted
  }

  lemma HearingMoreWidens(before: PartyContext, after: PartyContext, policy: Policy, now: int)
    requires OnlyHeardMore(before, after, policy, now)
    ensures Widened(View(before, policy, now), View(after, policy, now))
  {
    if before != after {
      var source :| AcceptedRecord(before, source, policy, now) && HearsOther(source, before, after);
      OneFact(before, source, after, policy, now);
    }
  }

  lemma WidenedFailsMore(s: Subject, t: Subject, code: RefusalCode)
    requires s.policy == t.policy && t.ctx == s.ctx.(sender := t.ctx.sender, recipient := t.ctx.recipient)
    requires Widened(s.sender, t.sender) && Widened(s.recipient, t.recipient) && Fails(code, s)
    ensures Fails(code, t)
  {
    if code == RecipientTierTooLow && s.recipient != t.recipient {
      var f :| s.recipient == PartyView([f], [f], false) && f in t.recipient.accepted;
      LowestTier(t.recipient.accepted, f);
    }
  }

  lemma HearingMoreFailsMore(policy: Policy, before: TransferContext, after: TransferContext, code: RefusalCode)
    requires after == before.(sender := after.sender, recipient := after.recipient)
    requires OnlyHeardMore(before.sender, after.sender, policy, before.now)
    requires OnlyHeardMore(before.recipient, after.recipient, policy, before.now)
    requires Fails(code, SubjectOf(policy, before))
    ensures Fails(code, SubjectOf(policy, after))
  {
    HearingMoreWidens(before.sender, after.sender, policy, before.now);
    HearingMoreWidens(before.recipient, after.recipient, policy, before.now);
    WidenedFailsMore(SubjectOf(policy, before), SubjectOf(policy, after), code);
  }

  /** A second source never turns a refusal into an allow: it can only narrow what the first allows. */
  lemma SecondSourceOnlyNarrows(policy: Policy, before: TransferContext, after: TransferContext)
    requires Valid(policy)
    requires after == before.(sender := after.sender, recipient := after.recipient)
    requires OnlyHeardMore(before.sender, after.sender, Normalise(policy), before.now)
    requires OnlyHeardMore(before.recipient, after.recipient, Normalise(policy), before.now)
    ensures NoMilder(Judge(policy, before), Judge(policy, after))
  {
    JudgeIsFirst(policy, before);
    JudgeIsFirst(policy, after);
    var f := c => Fails(c, SubjectOf(Normalise(policy), before));
    var g := c => Fails(c, SubjectOf(Normalise(policy), after));
    forall c | f(c) ensures g(c) { HearingMoreFailsMore(Normalise(policy), before, after, c); }
    MoreFailuresNoMilder(f, g, Judge(policy, before), Judge(policy, after));
  }

  // ─── Records out of date ───────────────────────────────────────────────────

  /** The party with every record that is out of date taken away. */
  function WithoutStale(party: PartyContext, policy: Policy, now: int): PartyContext {
    PartyContext(
      if party.provider.Recorded? && !IsProviderCurrent(party.provider.status, policy.status.maxAge, now)
      then Absent else party.provider,
      if party.register.Recorded? && !IsCurrent(party.register.status.expiresAt, now)
      then Absent else party.register)
  }

  function Cleaned(policy: Policy, ctx: TransferContext): TransferContext {
    ctx.(sender := WithoutStale(ctx.sender, policy, ctx.now), recipient := WithoutStale(ctx.recipient, policy, ctx.now))
  }

  lemma SameViewsFailTheSame(s: Subject, t: Subject, code: RefusalCode)
    requires t == Subject(s.policy, t.ctx, s.sender, s.recipient)
    requires t.ctx == s.ctx.(sender := t.ctx.sender, recipient := t.ctx.recipient)
    ensures Fails(code, t) <==> Fails(code, s)
  {
  }

  /** The verdict hangs on the parties only through what their sources say now. */
  lemma SameViewsSameVerdict(policy: Policy, ctx: TransferContext, other: TransferContext)
    requires other == ctx.(sender := other.sender, recipient := other.recipient)
    requires View(other.sender, Normalise(policy), ctx.now) == View(ctx.sender, Normalise(policy), ctx.now)
    requires View(other.recipient, Normalise(policy), ctx.now) == View(ctx.recipient, Normalise(policy), ctx.now)
    ensures Judge(policy, other) == Judge(policy, ctx)
  {
    var p := Normalise(policy);
    JudgeIsFirst(policy, ctx);
    JudgeIsFirst(policy, other);
    var f := c => Fails(c, SubjectOf(p, ctx));
    var g := c => Fails(c, SubjectOf(p, other));
    forall c ensures f(c) <==> g(c) { SameViewsFailTheSame(SubjectOf(p, ctx), SubjectOf(p, other), c); }
    SameFailuresSameVerdict(f, g, Judge(policy, ctx), Judge(policy, other));
  }

  lemma CleanedView(party: PartyContext, policy: Policy, now: int)
    ensures View(WithoutStale(party, policy, now), policy, now) == View(party, policy, now)
  {
  }

  /** An expired or over-age record gives the verdict, code included, that no record gives. */
  lemma StaleIsAbsent(policy: Policy, ctx: TransferContext)
    ensures Judge(policy, Cleaned(Normalise(policy), ctx)) == Judge(policy, ctx)
  {
    var p := Normalise(policy);
    CleanedView(ctx.sender, p, ctx.now);
    CleanedView(ctx.recipient, p, ctx.now);
    SameViewsSameVerdict(policy, ctx, Cleaned(p, ctx));
  }

  datatype Side = SenderSide | RecipientSide

  function PartyOn(ctx: TransferContext, side: Side): PartyContext {
    match side
    case SenderSide => ctx.sender
    case RecipientSide => ctx.recipient
  }

  function WithParty(ctx: TransferContext, side: Side, party: PartyContext): TransferContext {
    match side
    case SenderSide => ctx.(sender := party)
    case RecipientSide => ctx.(recipient := party)
  }

  function WithRegister(ctx: TransferContext, side: Side, register: SourceState<StatusRecord>): TransferContext {
    WithParty(ctx, side, PartyOn(ctx, side).(register := register))
  }

  function WithProvider(ctx: TransferContext, side: Side, provider: SourceState<ProviderStatus>): TransferContext {
    WithParty(ctx, side, PartyOn(ctx, side).(provider := provider))
  }

  /** Until the second it expires a register record counts as one that never does, and from that second on as none. */
  lemma RegisterCountsUntilExpiry(policy: Policy, ctx: TransferContext, side: Side, record: StatusRecord, e: int)
    requires PartyOn(ctx, side).register == Recorded(record) && record.expiresAt == Some(e)
    ensures ctx.now < e ==> Judge(policy, WithRegister(ctx, side, Recorded(record.(expiresAt := None)))) == Judge(policy, ctx)
    ensures ctx.now >= e ==> Judge(policy, WithRegister(ctx, side, Absent)) == Judge(policy, ctx)
  {
    RegisterViews(PartyOn(ctx, side), Normalise(policy), ctx.now, record, e);
    if ctx.now < e {
      SameViewsSameVerdict(policy, ctx, WithRegister(ctx, side, Recorded(record.(expiresAt := None))));
    } else {
      SameViewsSameVerdict(policy, ctx, WithRegister(ctx, side, Absent));
    }
  }

  lemma RegisterViews(party: PartyContext, policy: Policy, now: int, record: StatusRecord, e: int)
    requires party.register == Recorded(record) && record.expiresAt == Some(e)
    ensures now < e ==> View(party.(register := Recorded(record.(expiresAt := None))), policy, now) == View(party, policy, now)
    ensures now >= e ==> View(party.(register := Absent), policy, now) == View(party, policy, now)
  {
  }

  lemma ProviderViews(party: PartyContext, policy: Policy, now: int, status: ProviderStatus, lasting: ProviderStatus)
    requires party.provider == Recorded(status) && (policy.status.maxAge.Some? ==> policy.status.maxAge.value >= 0)
    requires lasting == ProviderStatus(status.record.(expiresAt := None), now)
    ensures
      View(party, policy, now) == View(party.(provider :=
        if && (status.record.expiresAt.Some? ==> now < status.record.expiresAt.value)
           && (policy.status.maxAge.Some? ==> now - status.issuedAt <= policy.status.maxAge.value)
        then Recorded(lasting) else Absent), policy, now)
  {
  }

  /**
   * A provider record counts as one issued this second that never expires, as long as it has not
   * expired and is no older than the policy allows; otherwise as none.
   */
  lemma ProviderCountsWhileFresh(policy: Policy, ctx: TransferContext, side: Side, status: ProviderStatus)
    requires Valid(policy) && PartyOn(ctx, side).provider == Recorded(status)
    ensures
      var lasting := ProviderStatus(status.record.(expiresAt := None), ctx.now);
      var counts := && (status.record.expiresAt.Some? ==> ctx.now < status.record.expiresAt.value)
                    && (policy.status.maxAge.Some? ==> ctx.now - status.issuedAt <= policy.status.maxAge.value);
      Judge(policy, ctx) == Judge(policy, WithProvider(ctx, side, if counts then Recorded(lasting) else Absent))
  {
    var lasting := ProviderStatus(status.record.(expiresAt := None), ctx.now);
    var party := PartyOn(ctx, side);
    ProviderViews(party, Normalise(policy), ctx.now, status, lasting);
    if (status.record.expiresAt.Some? ==> ctx.now < status.record.expiresAt.value)
       && (policy.status.maxAge.Some? ==> ctx.now - status.issuedAt <= policy.status.maxAge.value) {
      SameViewsSameVerdict(policy, ctx, WithProvider(ctx, side, Recorded(lasting)));
    } else {
      SameViewsSameVerdict(policy, ctx, WithProvider(ctx, side, Absent));
    }
  }

  /** The token program comes first: a paused token, then a frozen account on either side, whatever the policy; only then the policy. */
  lemma TokenLayerFirst(policy: Policy, ctx: TransferContext, token: TokenState)
    ensures token.paused ==> Simulate(policy, ctx, token) == Refused(TransfersPaused)
    ensures !token.paused && token.senderFrozen ==> Simulate(policy, ctx, token) == Refused(AccountFrozen)
    ensures !token.paused && token.recipientFrozen ==> Simulate(policy, ctx, token) == Refused(AccountFrozen)
    ensures Simulate(policy, ctx, token) != Judge(policy, ctx) ==> token.paused || token.senderFrozen || token.recipientFrozen
    ensures Judge(policy, ctx) != Refused(AccountFrozen) && Judge(policy, ctx) != Refused(TransfersPaused)
  {
    JudgeIsFirst(policy, ctx);
    var f := c => Fails(c, SubjectOf(Normalise(policy), ctx));
    assert FirstFailing(f, Judge(policy, ctx));
    assert !f(AccountFrozen) && !f(TransfersPaused);
  }

  // ─── What a transfer needs ─────────────────────────────────────────────────

  /** The party has this record from this source, not yet expired and, from the provider, no older than the policy allows. */
  ghost predicate Has(party: PartyContext, policy: Policy, now: int, source: Source, record: StatusRecord) {
    && (record.expiresAt.Some? ==> now < record.expiresAt.value)
    && match source
       case Register => party.register == Recorded(record)
       case Provider =>
         party.provider.Recorded? && party.provider.status.record == record
         && (policy.status.maxAge.Some? ==> now <= party.provider.status.issuedAt + policy.status.maxAge.value)
  }

  /** Both sources answered, an accepted one knows the party, and neither denies it. */
  ghost predicate InGoodStanding(party: PartyContext, policy: Policy, now: int) {
    && !party.provider.Unavailable? && !party.register.Unavailable?
    && (exists source, record :: source in policy.status.sources && Has(party, policy, now, source, record))
    && (forall source, record :: Has(party, policy, now, source, record) ==> !record.denied)
  }

  /** Every accepted record of the recipient has the tier and one of the jurisdictions asked for. */
  ghost predicate Admitted(party: PartyContext, policy: Policy, now: int) {
    forall source, record :: Has(party, policy, now, source, record) && source in policy.status.sources ==>
      record.tier >= policy.status.minTier
      && (policy.jurisdictions.Some? ==> record.jurisdiction in policy.jurisdictions.value)
  }

  /** The amount is within the limit of a transfer, and with what was spent in the running window within that of a period. */
  ghost predicate WithinLimits(policy: Policy, ctx: TransferContext) {
    && (policy.transferLimit.Some? ==> ctx.amount <= policy.transferLimit.value)
    && (policy.periodLimit.Some? ==>
          && ctx.velocity.Some?
          && var ended := ctx.velocity.value.windowStart + policy.periodLimit.value.windowSeconds <= ctx.now;
             ctx.amount + (if ended then 0 else ctx.velocity.value.spentInWindow) <= policy.periodLimit.value.amount)
  }

  /** Everything the policy asks of a transfer, in terms of the records and the times themselves. */
  ghost predicate Meets(policy: Policy, ctx: TransferContext) {
    && ctx.policyVersion == ctx.mintPolicyVersion
    && InGoodStanding(ctx.sender, policy, ctx.now) && InGoodStanding(ctx.recipient, policy, ctx.now)
    && Admitted(ctx.recipient, policy, ctx.now) && WithinLimits(policy, ctx)
  }

  lemma FactsAreRecords(party: PartyContext, policy: Policy, now: int)
    ensures
      var view := View(party, policy, now);
      && (forall source, record :: Has(party, policy, now, source, record) ==>
            Fact(source, record.denied, record.tier, record.jurisdiction) in view.current)
      && (forall f :: f in view.current ==>
            exists record :: Has(party, policy, now, f.source, record) && f.denied == record.denied
                             && f.tier == record.tier && f.jurisdiction == record.jurisdiction)
  {
    var view := View(party, policy, now);
    var provider, register := ProviderFacts(party, policy, now), RegisterFacts(party, now);
    assert view.current == provider + register;
    forall source, record | Has(party, policy, now, source, record)
      ensures Fact(source, record.denied, record.tier, record.jurisdiction) in view.current
    {
      match source
      case Provider => assert view.current[0] == Fact(source, record.denied, record.tier, record.jurisdiction);
      case Register => assert register[0] == Fact(source, record.denied, record.tier, record.jurisdiction);
    }
    forall f | f in view.current
      ensures exists record :: Has(party, policy, now, f.source, record) && f.denied == record.denied
                               && f.tier == record.tier && f.jurisdiction == record.jurisdiction
    {
      if f in provider { assert Has(party, policy, now, f.source, party.provider.status.record); }
      else { assert Has(party, policy, now, f.source, party.register.status); }
    }
  }

  lemma {:induction false} TierReached(facts: seq<Fact>, tier: int)
    requires facts != []
    ensures MergedTier(facts) >= tier <==> forall f :: f in facts ==> f.tier >= tier
  {
    if |facts| > 1 {
      TierReached(facts[1..], tier);
      assert forall f :: f in facts <==> f == facts[0] || f in facts[1..];
    }
  }

  lemma StandingIsChecked(party: PartyContext, policy: Policy, now: int)
    ensures
      var view := View(party, policy, now);
      InGoodStanding(party, policy, now) <==> !view.unavailable && view.accepted != [] && !DeniedBy(view.current)
  {
    FactsAreRecords(party, policy, now);
    var view := View(party, policy, now);
    if view.accepted != [] { assert view.accepted[0] in view.accepted; }
  }

  lemma AdmissionIsChecked(party: PartyContext, policy: Policy, now: int)
    requires View(party, policy, now).accepted != []
    ensures
      var facts := View(party, policy, now).accepted;
      Admitted(party, policy, now) <==>
      MergedTier(facts) >= policy.status.minTier && !JurisdictionRefused(facts, policy.jurisdictions)
  {
    FactsAreRecords(party, policy, now);
    TierReached(View(party, policy, now).accepted, policy.status.minTier);
  }

  lemma NoCheckFails(policy: Policy, ctx: TransferContext)
    ensures (forall c :: !Fails(c, SubjectOf(policy, ctx))) <==> Meets(policy, ctx)
  {
    var s := SubjectOf(policy, ctx);
    StandingIsChecked(ctx.sender, policy, ctx.now);
    StandingIsChecked(ctx.recipient, policy, ctx.now);
    if s.recipient.accepted != [] { AdmissionIsChecked(ctx.recipient, policy, ctx.now); }
    AcceptedAreKnown(ctx.sender, policy, ctx.now);
    AcceptedAreKnown(ctx.recipient, policy, ctx.now);
    EveryCheck(s);
  }

  lemma AcceptedAreKnown(party: PartyContext, policy: Policy, now: int)
    ensures View(party, policy, now).accepted != [] ==> View(party, policy, now).current != []
  {
    var view := View(party, policy, now);
    if view.accepted != [] { assert view.accepted[0] in view.accepted; }
  }

  /** The checks, each written out. */
  lemma EveryCheck(s: Subject)
    requires s.sender.accepted != [] ==> s.sender.current != []
    requires s.recipient.accepted != [] ==> s.recipient.current != []
    ensures (forall c :: !Fails(c, s)) <==>
            && s.ctx.policyVersion == s.ctx.mintPolicyVersion
            && !s.sender.unavailable && s.sender.accepted != [] && !DeniedBy(s.sender.current)
            && !s.recipient.unavailable && s.recipient.accepted != [] && !DeniedBy(s.recipient.current)
            && MergedTier(s.recipient.accepted) >= s.policy.status.minTier
            && !JurisdictionRefused(s.recipient.accepted, s.policy.jurisdictions)
            && WithinLimits(s.policy, s.ctx)
  {
    if forall c :: !Fails(c, s) {
      assert !Fails(PolicyVersionMismatch, s) && !Fails(SenderStatusMissing, s) && !Fails(RecipientStatusMissing, s);
      assert !Fails(StatusSourceNotAccepted, s) && !Fails(StatusSourceUnavailable, s);
      assert !Fails(SenderDenied, s) && !Fails(RecipientDenied, s) && !Fails(RecipientTierTooLow, s);
      assert !Fails(RecipientJurisdictionNotAllowed, s) && !Fails(TransferLimitExceeded, s);
      assert !Fails(VelocityCounterMissing, s) && !Fails(PeriodLimitExceeded, s);
    }
  }

  /** A transfer is allowed exactly when it meets everything the policy asks. */
  lemma AllowedExactly(policy: Policy, ctx: TransferContext)
    requires Valid(policy)
    ensures Judge(policy, ctx) == Allowed <==> Meets(policy, ctx)
  {
    var p := Normalise(policy);
    var f := c => Fails(c, SubjectOf(p, ctx));
    JudgeIsFirst(policy, ctx);
    assert FirstFailing(f, Judge(policy, ctx));
    if Judge(policy, ctx) == Allowed { forall c ensures !Fails(c, SubjectOf(p, ctx)) { assert !f(c); } }
    NoCheckFails(p, ctx);
    NormalAsksTheSame(policy, ctx);
  }

  lemma NormalAsksTheSame(policy: Policy, ctx: TransferContext)
    requires Valid(policy)
    ensures
      var p := Normalise(policy);
      && (InGoodStanding(ctx.sender, p, ctx.now) <==> InGoodStanding(ctx.sender, policy, ctx.now))
      && (InGoodStanding(ctx.recipient, p, ctx.now) <==> InGoodStanding(ctx.recipient, policy, ctx.now))
      && (Admitted(ctx.recipient, p, ctx.now) <==> Admitted(ctx.recipient, policy, ctx.now))
      && (WithinLimits(p, ctx) <==> WithinLimits(policy, ctx))
  {
    var p := Normalise(policy);
    CanonicalMembers(policy.status.sources);
    if policy.jurisdictions.Some? { SortedCodes(policy.jurisdictions.value); }
    assert forall party, source, record :: Has(party, p, ctx.now, source, record) <==> Has(party, policy, ctx.now, source, record);
  }

  /** The tier check is reached only with an accepted fact in hand, for both parties. */
  lemma TierHasFacts(policy: Policy, ctx: TransferContext)
    requires Judge(policy, ctx).Refused? ==> Rank(Judge(policy, ctx).code) >= Rank(RecipientTierTooLow)
    ensures View(ctx.sender, Normalise(policy), ctx.now).accepted != []
    ensures View(ctx.recipient, Normalise(policy), ctx.now).accepted != []
  {
    StatusComesFirst();
    EarlierPassed(policy, ctx, SenderStatusMissing);
    EarlierPassed(policy, ctx, RecipientStatusMissing);
    EarlierPassed(policy, ctx, StatusSourceNotAccepted);
    EarlierPassed(policy, ctx, StatusSourceUnavailable);
    StatusChecksPassed(SubjectOf(Normalise(policy), ctx));
    AcceptedWhenKnown(ctx.sender, Normalise(policy), ctx.now);
    AcceptedWhenKnown(ctx.recipient, Normalise(policy), ctx.now);
  }

  lemma StatusComesFirst()
    ensures forall code :: code in {SenderStatusMissing, RecipientStatusMissing, StatusSourceNotAccepted, StatusSourceUnavailable}
              ==> Rank(code) < Rank(RecipientTierTooLow)
  {
  }

  lemma AcceptedWhenKnown(party: PartyContext, policy: Policy, now: int)
    requires
      var view := View(party, policy, now);
      !view.unavailable && !NothingKnown(view) && !OnlyUnaccepted(view)
    ensures View(party, policy, now).accepted != []
  {
  }

  lemma EarlierPassed(policy: Policy, ctx: TransferContext, code: RefusalCode)
    requires Judge(policy, ctx).Refused? ==> Rank(Judge(policy, ctx).code) > Rank(code)
    ensures !Fails(code, SubjectOf(Normalise(policy), ctx))
  {
    JudgeIsFirst(policy, ctx);
    var f := c => Fails(c, SubjectOf(Normalise(policy), ctx));
    assert FirstFailing(f, Judge(policy, ctx));
    assert !f(code);
  }

  lemma StatusChecksPassed(s: Subject)
    requires !Fails(SenderStatusMissing, s) && !Fails(RecipientStatusMissing, s)
    requires !Fails(StatusSourceNotAccepted, s) && !Fails(StatusSourceUnavailable, s)
    ensures !s.sender.unavailable && !NothingKnown(s.sender) && !OnlyUnaccepted(s.sender)
    ensures !s.recipient.unavailable && !NothingKnown(s.recipient) && !OnlyUnaccepted(s.recipient)
  {
  }
}
