/** The transfer hook: its evaluator over the raw slots and the window counter it keeps
    (programs/issuer-forge/src/rules/evaluate.rs, programs/issuer-forge/src/hook/execute.rs). */
module ProgramRules {
  import opened Common
  import opened LittleEndianBytes
  import opened PolicyModel
  import opened PolicyLayout
  import opened PolicyDecoding
  import opened Refusals
  import opened TransferRules

  function SaturateU64(n: int): int { Min(n, U64_MAX) }

  function SaturateI64(n: int): int { Max(I64_MIN, Min(n, I64_MAX)) }

  // ─── Reading the slots ─────────────────────────────────────

  datatype PolicyView = PolicyView(
    sourceMask: byte,
    minTier: byte,
    maxAge: Option<nat>,
    statusSeen: bool,
    jurisdictions: Option<seq<byte>>,
    transferLimit: Option<nat>,
    periodLimit: Option<PeriodLimit>,
    unknownKind: bool)

  const NO_POLICY := PolicyView(0, 0, None, false, None, None, None, false)

  /** One slot after those already read; of two slots of one kind the first wins. */
  function ReadSlot(view: PolicyView, slot: Slot): PolicyView
    requires |slot.params| == RULE_PARAMS_BYTES
  {
    var params := slot.params;
    if slot.kind == 0 then view
    else if slot.kind == KIND_STATUS then
      if view.statusSeen then view
      else
        var age := FromLittleEndian(params[2..6]);
        view.(statusSeen := true, sourceMask := params[0], minTier := params[1],
              maxAge := if age != 0 then Some(age) else None)
    else if slot.kind == KIND_JURISDICTIONS then
      if view.jurisdictions.Some? then view else view.(jurisdictions := Some(params))
    else if slot.kind == KIND_TRANSFER_LIMIT then
      if view.transferLimit.Some? then view else view.(transferLimit := Some(ReadAmount(params)))
    else if slot.kind == KIND_PERIOD_LIMIT then
      if view.periodLimit.Some? then view else view.(periodLimit := Some(ReadPeriod(params)))
    else view.(unknownKind := true)
  }

  /** The parameters of the first slot of a kind. */
  function ParamsOf(slots: seq<Slot>, kind: byte): (r: Option<seq<byte>>)
    requires WellSized(slots)
    ensures r.Some? ==> |r.value| == RULE_PARAMS_BYTES
  {
    var at := SlotOfKind(slots, kind);
    if at.Some? then Some(slots[at.value].params) else None
  }

  predicate HasUnknownKind(slots: seq<Slot>) {
    exists i :: 0 <= i < |slots| && slots[i].kind > 4
  }

  /** What the slots say, rule by rule. */
  function ViewOf(slots: seq<Slot>): PolicyView
    requires WellSized(slots)
  {
    var status := ParamsOf(slots, KIND_STATUS);
    var transfer := ParamsOf(slots, KIND_TRANSFER_LIMIT);
    var period := ParamsOf(slots, KIND_PERIOD_LIMIT);
    PolicyView(
      if status.Some? then status.value[0] else 0,
      if status.Some? then status.value[1] else 0,
      if status.Some? then ReadStatus(status.value).maxAge else None,
      status.Some?,
      ParamsOf(slots, KIND_JURISDICTIONS),
      if transfer.Some? then Some(ReadAmount(transfer.value)) else None,
      if period.Some? then Some(ReadPeriod(period.value)) else None,
      HasUnknownKind(slots))
  }

  lemma ParamsOfAppend(slots: seq<Slot>, slot: Slot, kind: byte)
    requires WellSized(slots) && |slot.params| == RULE_PARAMS_BYTES
    ensures WellSized(slots + [slot])
    ensures ParamsOf(slots + [slot], kind) ==
            if ParamsOf(slots, kind).Some? then ParamsOf(slots, kind)
            else if slot.kind == kind then Some(slot.params) else None
  {
    SlotOfKindAppend(slots, slot, kind);
  }

  lemma UnknownKindAppend(slots: seq<Slot>, slot: Slot)
    ensures HasUnknownKind(slots + [slot]) <==> HasUnknownKind(slots) || slot.kind > 4
  {
    var more := slots + [slot];
    assert more[|slots|] == slot;
    if HasUnknownKind(slots) {
      var i :| 0 <= i < |slots| && slots[i].kind > 4;
      assert more[i].kind > 4;
    }
  }

  lemma ViewAppend(slots: seq<Slot>, slot: Slot)
    requires WellSized(slots) && |slot.params| == RULE_PARAMS_BYTES
    ensures WellSized(slots + [slot]) && ViewOf(slots + [slot]) == ReadSlot(ViewOf(slots), slot)
  {
    ParamsOfAppend(slots, slot, KIND_STATUS);
    ParamsOfAppend(slots, slot, KIND_JURISDICTIONS);
    ParamsOfAppend(slots, slot, KIND_TRANSFER_LIMIT);
    ParamsOfAppend(slots, slot, KIND_PERIOD_LIMIT);
    UnknownKindAppend(slots, slot);
  }

  /** Walks every slot, gaps and what follows them included. */
  method ReadPolicy(slots: seq<Slot>) returns (view: PolicyView)
    requires WellSized(slots)
    ensures view == ViewOf(slots)
  {
    view := NO_POLICY;
    for i := 0 to |slots|
      invariant view == ViewOf(slots[..i])
    {
      ViewAppend(slots[..i], slots[i]);
      assert slots[..i + 1] == slots[..i] + [slots[i]];
      view := ReadSlot(view, slots[i]);
    }
    assert slots[..|slots|] == slots;
  }

  // ─── The checks ────────────────────────────────────────────────────────────

  datatype ProgramParty = ProgramParty(provider: Option<Fact>, register: Option<Fact>, unavailable: bool)

  predicate MaskHas(mask: byte, source: Source) {
    if source == Provider then mask % 2 == 1 else (mask / 2) % 2 == 1
  }

  function Known(party: ProgramParty): seq<Fact> {
    (if party.provider.Some? then [party.provider.value] else [])
    + (if party.register.Some? then [party.register.value] else [])
  }

  function AcceptedBy(facts: seq<Fact>, mask: byte): seq<Fact> {
    if facts == [] then []
    else (if MaskHas(mask, facts[0].source) then [facts[0]] else []) + AcceptedBy(facts[1..], mask)
  }

  predicate ProviderCurrent(status: ProviderStatus, maxAge: Option<nat>, now: int) {
    && IsCurrent(status.record.expiresAt, now)
    && (maxAge.None? || SaturateI64(now - status.issuedAt) <= maxAge.value)
  }

  function ProgramViewOf(party: PartyContext, view: PolicyView, now: int): ProgramParty {
    ProgramParty(
      if party.provider.Recorded? && ProviderCurrent(party.provider.status, view.maxAge, now)
      then Some(ToFact(Provider, party.provider.status.record)) else None,
      if party.register.Recorded? && IsCurrent(party.register.status.expiresAt, now)
      then Some(ToFact(Register, party.register.status)) else None,
      party.provider.Unavailable? || party.register.Unavailable?)
  }

  /** Whether a country code is among the byte pairs before the first pair of zeros. */
  predicate JurisdictionListed(params: seq<byte>, code: string) {
    |params| >= 2 && !(params[0] == 0 && params[1] == 0)
    && ([params[0] as char, params[1] as char] == code || JurisdictionListed(params[2..], code))
  }

  predicate ProgramPeriodExceeded(view: PolicyView, ctx: TransferContext) {
    && view.periodLimit.Some? && ctx.velocity.Some?
    && (var windowEnd := SaturateI64(ctx.velocity.value.windowStart + view.periodLimit.value.windowSeconds);
        var spent := if ctx.now < windowEnd then ctx.velocity.value.spentInWindow else 0;
        SaturateU64(spent + ctx.amount) > view.periodLimit.value.amount)
  }

  predicate ProgramFails(code: RefusalCode, view: PolicyView, ctx: TransferContext) {
    var sender := ProgramViewOf(ctx.sender, view, ctx.now);
    var recipient := ProgramViewOf(ctx.recipient, view, ctx.now);
    match code
    case PolicyVersionMismatch => ctx.policyVersion != ctx.mintPolicyVersion
    case SenderStatusMissing => !sender.unavailable && Known(sender) == []
    case RecipientStatusMissing => !recipient.unavailable && Known(recipient) == []
    case StatusSourceNotAccepted =>
      || (Known(sender) != [] && AcceptedBy(Known(sender), view.sourceMask) == [])
      || (Known(recipient) != [] && AcceptedBy(Known(recipient), view.sourceMask) == [])
    case StatusSourceUnavailable => sender.unavailable || recipient.unavailable
    case SenderDenied => DeniedBy(Known(sender))
    case RecipientDenied => DeniedBy(Known(recipient))
    case RecipientTierTooLow => MergedTier(AcceptedBy(Known(recipient), view.sourceMask)) < view.minTier
    case RecipientJurisdictionNotAllowed =>
      view.jurisdictions.Some?
      && exists f :: f in AcceptedBy(Known(recipient), view.sourceMask)
                     && !JurisdictionListed(view.jurisdictions.value, f.jurisdiction)
    case TransferLimitExceeded => view.transferLimit.Some? && ctx.amount > view.transferLimit.value
    case VelocityCounterMissing => view.periodLimit.Some? && ctx.velocity.None?
    case PeriodLimitExceeded => ProgramPeriodExceeded(view, ctx)
    case UnknownRuleKind => view.unknownKind
    case TransfersPaused => false
    case AccountFrozen => false
  }

  function FirstProgram(codes: seq<RefusalCode>, view: PolicyView, ctx: TransferContext): Verdict {
    if codes == [] then Allowed
    else if ProgramFails(codes[0], view, ctx) then Refused(codes[0])
    else FirstProgram(codes[1..], view, ctx)
  }

  function ProgramVerdict(view: PolicyView, ctx: TransferContext): Verdict {
    FirstProgram(REFUSAL_CODES, view, ctx)
  }

  lemma {:induction false} FirstProgramFails(k: nat, view: PolicyView, ctx: TransferContext)
    requires k <= |REFUSAL_CODES|
    requires forall c :: Rank(c) < k ==> !ProgramFails(c, view, ctx)
    ensures FirstFailing(c => ProgramFails(c, view, ctx), FirstProgram(REFUSAL_CODES[k..], view, ctx))
    decreases |REFUSAL_CODES| - k
  {
    if k < |REFUSAL_CODES| {
      var code := REFUSAL_CODES[k];
      assert Rank(code) == k;
      if !ProgramFails(code, view, ctx) {
        forall c | Rank(c) < k + 1 ensures !ProgramFails(c, view, ctx) { RankInjective(c, code); }
        FirstProgramFails(k + 1, view, ctx);
      }
    }
  }

  lemma ProgramVerdictIsFirst(view: PolicyView, ctx: TransferContext)
    ensures FirstFailing(c => ProgramFails(c, view, ctx), ProgramVerdict(view, ctx))
  {
    FirstProgramFails(0, view, ctx);
    assert REFUSAL_CODES[0..] == REFUSAL_CODES;
  }

  /** The hook's verdict: the first failing check, over what the slots say. */
  method EvaluateSlots(slots: seq<Slot>, ctx: TransferContext) returns (verdict: Verdict)
    requires WellSized(slots)
    ensures verdict == ProgramVerdict(ViewOf(slots), ctx)
    ensures FirstFailing(c => ProgramFails(c, ViewOf(slots), ctx), verdict)
  {
    var policy := ReadPolicy(slots);
    ProgramVerdictIsFirst(policy, ctx);
    for i := 0 to |REFUSAL_CODES|
      invariant ProgramVerdict(policy, ctx) == FirstProgram(REFUSAL_CODES[i..], policy, ctx)
    {
      if ProgramFails(REFUSAL_CODES[i], policy, ctx) { return Refused(REFUSAL_CODES[i]); }
      assert REFUSAL_CODES[i..][1..] == REFUSAL_CODES[i + 1..];
    }
    verdict := Allowed;
  }

  // ─── The two evaluators ────────────────────────────────────────────────────

  lemma {:induction false} ListedIffRead(params: seq<byte>, code: string)
    ensures JurisdictionListed(params, code) <==> code in ReadCodes(params)
  {
    if |params| >= 2 && !(params[0] == 0 && params[1] == 0) {
      ListedIffRead(params[2..], code);
    }
  }

  lemma {:induction false} SameAccepted(facts: seq<Fact>, mask: byte, sources: seq<Source>)
    requires forall s :: MaskHas(mask, s) <==> s in sources
    ensures AcceptedBy(facts, mask) == AcceptedFacts(facts, sources)
  {
    if facts != [] { SameAccepted(facts[1..], mask, sources); }
  }

  /** The program and the decoder read the same rules out of an accepted array. */
  ghost predicate SamePolicy(view: PolicyView, policy: Policy) {
    && (forall s :: MaskHas(view.sourceMask, s) <==> s in policy.status.sources)
    && view.minTier == policy.status.minTier
    && view.maxAge == policy.status.maxAge
    && view.jurisdictions.Some? == policy.jurisdictions.Some?
    && (view.jurisdictions.Some? ==>
          forall c :: c in ReadCodes(view.jurisdictions.value) <==> c in policy.jurisdictions.value)
    && view.transferLimit == policy.transferLimit
    && view.periodLimit == policy.periodLimit
    && !view.unknownKind
  }

  lemma SameRules(slots: seq<Slot>, view: PolicyView)
    requires Sized(slots) && Accepted(slots) && view == ViewOf(slots)
    ensures SamePolicy(view, Decode(slots).value)
  {
    var drafted := PolicyOf(DraftOf(slots));
    CanonicalMembers(drafted.status.sources);
    if drafted.jurisdictions.Some? { SortedCodes(drafted.jurisdictions.value); }
    forall i | 0 <= i < |slots| ensures slots[i].kind <= 4 { assert WellFormedSlot(slots[i]); }
    forall s ensures MaskHas(view.sourceMask, s) <==> s in drafted.status.sources {
      match s
      case Provider =>
      case Register =>
    }
  }

  lemma SameParties(view: PolicyView, policy: Policy, party: PartyContext, now: int)
    requires SamePolicy(view, policy) && ValidParty(party) && IsMoment(now)
    ensures
      var p, t := ProgramViewOf(party, view, now), View(party, policy, now);
      && Known(p) == t.current
      && AcceptedBy(Known(p), view.sourceMask) == t.accepted
      && p.unavailable == t.unavailable
  {
    SameAccepted(Known(ProgramViewOf(party, view, now)), view.sourceMask, policy.status.sources);
  }

  /** The period limit is the u64 ceiling itself, and what was spent together with the amount does not fit in a u64. */
  predicate Overflows(policy: Policy, ctx: TransferContext) {
    && policy.periodLimit.Some? && policy.periodLimit.value.amount == U64_MAX
    && ctx.velocity.Some?
    && SpentNow(ctx.velocity.value, policy.periodLimit.value.windowSeconds, ctx.now) + ctx.amount > U64_MAX
  }

  lemma SameChecks(view: PolicyView, policy: Policy, ctx: TransferContext, code: RefusalCode)
    requires SamePolicy(view, policy) && Valid(policy) && ValidContext(ctx)
    ensures ProgramFails(code, view, ctx) <==>
            Fails(code, SubjectOf(policy, ctx)) && !(code == PeriodLimitExceeded && Overflows(policy, ctx))
  {
    SameParties(view, policy, ctx.sender, ctx.now);
    SameParties(view, policy, ctx.recipient, ctx.now);
    match code
    case PeriodLimitExceeded =>
    case RecipientJurisdictionNotAllowed =>
      if view.jurisdictions.Some? {
        forall c { ListedIffRead(view.jurisdictions.value, c); }
      }
    case _ =>
  }

  /** A transfer that every rule but the period limit allows. */
  ghost predicate OtherwiseAllowed(policy: Policy, ctx: TransferContext) {
    Judge(policy.(periodLimit := None), ctx) == Allowed
  }

  lemma OtherChecksIgnorePeriod(policy: Policy, ctx: TransferContext, code: RefusalCode)
    requires code != PeriodLimitExceeded && (code == VelocityCounterMissing ==> ctx.velocity.Some?)
    ensures Fails(code, SubjectOf(policy.(periodLimit := None), ctx)) <==> Fails(code, SubjectOf(policy, ctx))
  {
    var bare := policy.(periodLimit := None);
    assert View(ctx.sender, bare, ctx.now) == View(ctx.sender, policy, ctx.now);
    assert View(ctx.recipient, bare, ctx.now) == View(ctx.recipient, policy, ctx.now);
  }

  lemma OnlyPeriodFails(policy: Policy, ctx: TransferContext)
    requires Normal(policy) && OtherwiseAllowed(policy, ctx) && ctx.velocity.Some?
    ensures forall c :: Fails(c, SubjectOf(policy, ctx)) ==> c == PeriodLimitExceeded
  {
    var bare := policy.(periodLimit := None);
    JudgeIsFirst(bare, ctx);
    assert Normalise(bare) == bare;
    var f := c => Fails(c, SubjectOf(bare, ctx));
    forall c | Fails(c, SubjectOf(policy, ctx)) ensures c == PeriodLimitExceeded {
      assert !f(c);
      if c != PeriodLimitExceeded { OtherChecksIgnorePeriod(policy, ctx, c); }
    }
  }

  lemma EarlierCheckFails(policy: Policy, ctx: TransferContext)
    requires Normal(policy) && !OtherwiseAllowed(policy, ctx)
    ensures exists c :: c != PeriodLimitExceeded && Rank(c) < Rank(PeriodLimitExceeded) && Fails(c, SubjectOf(policy, ctx))
  {
    var bare := policy.(periodLimit := None);
    JudgeIsFirst(bare, ctx);
    assert Normalise(bare) == bare;
    var code := Judge(bare, ctx).code;
    assert View(ctx.sender, bare, ctx.now) == View(ctx.sender, policy, ctx.now);
    assert View(ctx.recipient, bare, ctx.now) == View(ctx.recipient, policy, ctx.now);
    assert Fails(code, SubjectOf(bare, ctx));
    assert Fails(code, SubjectOf(policy, ctx));
  }

  /** What the two evaluators make of the same rules. */
  ghost predicate Agreement(policy: Policy, ctx: TransferContext, verdict: Verdict) {
    && (verdict == Judge(policy, ctx) <==> !(Overflows(policy, ctx) && OtherwiseAllowed(policy, ctx)))
    && (verdict != Judge(policy, ctx) ==> verdict == Allowed && Judge(policy, ctx) == Refused(PeriodLimitExceeded))
  }

  lemma AgreeOnRules(policy: Policy, ctx: TransferContext, view: PolicyView, verdict: Verdict)
    requires Valid(policy) && Normal(policy) && ValidContext(ctx) && SamePolicy(view, policy)
    requires FirstFailing(c => ProgramFails(c, view, ctx), verdict)
    ensures Agreement(policy, ctx, verdict)
  {
    var f := c => ProgramFails(c, view, ctx);
    var g := c => Fails(c, SubjectOf(policy, ctx));
    forall c ensures f(c) <==> g(c) && !(c == PeriodLimitExceeded && Overflows(policy, ctx)) {
      SameChecks(view, policy, ctx, c);
    }
    JudgeIsFirst(policy, ctx);
    var judged := Judge(policy, ctx);
    assert FirstFailing(g, judged);
    if !Overflows(policy, ctx) {
      SameFailuresSameVerdict(f, g, verdict, judged);
    } else if OtherwiseAllowed(policy, ctx) {
      OnlyPeriodFails(policy, ctx);
      assert Fails(PeriodLimitExceeded, SubjectOf(policy, ctx));
      Disagree(f, g, verdict, judged);
    } else {
      EarlierCheckFails(policy, ctx);
      AgreeEarlier(f, g, verdict, judged);
    }
  }

  lemma Disagree(f: RefusalCode -> bool, g: RefusalCode -> bool, verdict: Verdict, judged: Verdict)
    requires FirstFailing(f, verdict) && FirstFailing(g, judged)
    requires forall c :: !f(c)
    requires forall c :: g(c) <==> c == PeriodLimitExceeded
    ensures verdict == Allowed && judged == Refused(PeriodLimitExceeded)
  {
    assert g(PeriodLimitExceeded);
  }

  lemma AgreeEarlier(f: RefusalCode -> bool, g: RefusalCode -> bool, verdict: Verdict, judged: Verdict)
    requires FirstFailing(f, verdict) && FirstFailing(g, judged)
    requires forall c :: c != PeriodLimitExceeded ==> (f(c) <==> g(c))
    requires f(PeriodLimitExceeded) ==> g(PeriodLimitExceeded)
    requires exists c :: c != PeriodLimitExceeded && Rank(c) < Rank(PeriodLimitExceeded) && g(c)
    ensures verdict == judged
  {
    var c :| c != PeriodLimitExceeded && Rank(c) < Rank(PeriodLimitExceeded) && g(c);
    assert f(c);
    RankInjective(verdict.code, judged.code);
  }

  /**
   * The hook and the console give one verdict, code included, for every array the decoder accepts
   * and every transfer — except in exactly one case: the period limit is the u64 ceiling, the sum
   * does not fit in a u64 and nothing else refuses. There the program's saturating sum allows what
   * the console refuses.
   */
  lemma EvaluatorsAgree(slots: seq<Slot>, ctx: TransferContext)
    requires Sized(slots) && Accepted(slots) && ValidContext(ctx)
    ensures Agreement(Decode(slots).value, ctx, ProgramVerdict(ViewOf(slots), ctx))
  {
    var view := ViewOf(slots);
    NormaliseValid(PolicyOf(DraftOf(slots)));
    SameRules(slots, view);
    ProgramVerdictIsFirst(view, ctx);
    AgreeOnRules(Decode(slots).value, ctx, view, ProgramVerdict(view, ctx));
  }
}
