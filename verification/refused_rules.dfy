/** From a refusal back to the rule it came from (tools/verify-journal/src/decode.ts). */
module RefusedRules {
  import opened Common
  import opened PolicyModel
  import opened PolicyLayout
  import opened PolicyDecoding
  import opened PolicyCodec
  import opened Refusals
  import opened TransferRules
  import opened ProgramLayout
  import opened ProgramRules

  /** The kind of the rule behind a refusal; a version mismatch and the like have no rule behind them. */
  function KindOf(code: RefusalCode): Option<byte> {
    match code
    case SenderStatusMissing => Some(KIND_STATUS)
    case RecipientStatusMissing => Some(KIND_STATUS)
    case StatusSourceNotAccepted => Some(KIND_STATUS)
    case StatusSourceUnavailable => Some(KIND_STATUS)
    case SenderDenied => Some(KIND_STATUS)
    case RecipientDenied => Some(KIND_STATUS)
    case RecipientTierTooLow => Some(KIND_STATUS)
    case RecipientJurisdictionNotAllowed => Some(KIND_JURISDICTIONS)
    case TransferLimitExceeded => Some(KIND_TRANSFER_LIMIT)
    case VelocityCounterMissing => Some(KIND_PERIOD_LIMIT)
    case PeriodLimitExceeded => Some(KIND_PERIOD_LIMIT)
    case _ => None
  }

  method FindSlot(rules: seq<byte>, kind: Option<byte>) returns (r: Option<nat>)
    requires |rules| == RULES_BYTES
    ensures r == if kind.None? then None else SlotOfKind(SlotsOf(rules), kind.value)
  {
    if kind.None? { return None; }
    for slot := 0 to MAX_RULE_SLOTS
      invariant forall i :: 0 <= i < slot ==> SlotsOf(rules)[i].kind != kind.value
    {
      if rules[slot * RULE_SLOT_BYTES] == kind.value {
        assert SlotsOf(rules)[slot].kind == kind.value;
        return Some(slot);
      }
    }
    r := None;
  }

  /** The rule of a kind that a slot spells is the policy's own. */
  predicate SpellsRule(slot: Slot, policy: Policy)
    requires |slot.params| == RULE_PARAMS_BYTES
  {
    && (slot.kind == KIND_STATUS ==> ReadStatus(slot.params) == policy.status)
    && (slot.kind == KIND_JURISDICTIONS ==> Some(ReadCodes(slot.params)) == policy.jurisdictions)
    && (slot.kind == KIND_TRANSFER_LIMIT ==> Some(ReadAmount(slot.params)) == policy.transferLimit)
    && (slot.kind == KIND_PERIOD_LIMIT ==> Some(ReadPeriod(slot.params)) == policy.periodLimit)
  }

  /**
   * Every refusal but a version mismatch leads to a slot of the encoded policy: the search finds
   * one, no other slot is of that kind, and its bytes spell the very rule that refused.
   */
  lemma RefusalNamesItsRule(rules: Policy, ctx: TransferContext)
    requires Valid(rules) && Judge(rules, ctx).Refused? && Judge(rules, ctx).code != PolicyVersionMismatch
    ensures
      var kind := KindOf(Judge(rules, ctx).code);
      var slots := SlotsOf(Encode(rules).value);
      && kind.Some? && SlotOfKind(slots, kind.value).Some?
      && var at := SlotOfKind(slots, kind.value).value;
         (forall i :: 0 <= i < |slots| && slots[i].kind == kind.value ==> i == at)
         && SpellsRule(slots[at], Normalise(rules))
  {
    NormaliseValid(rules);
    var policy := Normalise(rules);
    JudgeIsFirst(rules, ctx);
    var code := Judge(rules, ctx).code;
    assert Fails(code, SubjectOf(policy, ctx));
    var kind := KindOf(code).value;
    SlotsOfBytesOf(Slots(policy));
    SlotsHoldRules(policy, kind);
    EncodedShape(policy);
    EncodedDraft(policy);
    assert RuleOf(policy, kind) != [];
  }

  /** The refusal names the one slot of its rule, whose bytes spell that rule; a version mismatch has none. */
  ghost predicate NamesItsRule(slots: seq<Slot>, code: RefusalCode)
    requires Sized(slots) && Accepted(slots)
  {
    if code == PolicyVersionMismatch then KindOf(code).None?
    else
      && KindOf(code).Some? && SlotOfKind(slots, KindOf(code).value).Some?
      && var at := SlotOfKind(slots, KindOf(code).value).value;
         (forall i :: 0 <= i < |slots| && slots[i].kind == KindOf(code).value ==> i == at)
         && SpellsRule(slots[at], Decode(slots).value)
  }

  /** The same of the hook: whatever it refuses under rules the program let into the account. */
  lemma HookRefusalNamesItsRule(slots: seq<Slot>, ctx: TransferContext, code: RefusalCode)
    requires Sized(slots) && ProgramAccepts(slots) && ValidContext(ctx)
    requires ProgramVerdict(ViewOf(slots), ctx) == Refused(code)
    ensures Accepted(slots) && NamesItsRule(slots, code)
  {
    ProgramAcceptsCanonical(slots);
    EvaluatorsAgree(slots, ctx);
    var policy := Decode(slots).value;
    SlotsOfBytesOf(slots);
    EncodeDecode(BytesOf(slots));
    NormaliseValid(PolicyOf(DraftOf(slots)));
    if code != PolicyVersionMismatch { RefusalNamesItsRule(policy, ctx); }
  }
}
