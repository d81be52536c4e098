/** The program's own check of the rules before they are written (programs/issuer-forge/src/rules/layout.rs). */
module ProgramLayout {
  import opened Common
  import opened Ordering
  import opened LittleEndianBytes
  import opened PolicyModel
  import opened PolicyLayout
  import opened PolicyDecoding
  import opened PolicyCodec

  datatype LayoutRefusal =
    | PolicyRulesNotCanonical
    | PolicyRuleParamsOutOfRange
    | PolicyRuleKindUnknown
    | PolicyStatusRuleMissing

  datatype Check = Pass | Refuse(why: LayoutRefusal)

  // ─── One rule ──────────────────────────────────────────────────────────────

  predicate StatusPasses(params: seq<byte>)
    requires |params| == RULE_PARAMS_BYTES
  {
    var age := FromLittleEndian(params[2..6]);
    && KnownMask(params[0])
    && (age == 0 || MIN_ATTESTATION_AGE_SECONDS <= age <= MAX_ATTESTATION_AGE_SECONDS)
    && (params[0] % 2 == 0 || age != 0)
    && ZeroFrom(params, 6)
  }

  ghost predicate JurisdictionsPass(params: seq<byte>)
    requires |params| == RULE_PARAMS_BYTES
  {
    var codes := ReadCodes(params);
    codes != [] && (forall i :: 0 <= i < |codes| ==> IsCode(codes[i])) && Ascending(codes, Before)
    && ZeroFrom(params, 2 * |codes|)
  }

  predicate TransferLimitPasses(params: seq<byte>)
    requires |params| == RULE_PARAMS_BYTES
  {
    ReadAmount(params) > 0 && ZeroFrom(params, 8)
  }

  predicate PeriodLimitPasses(params: seq<byte>)
    requires |params| == RULE_PARAMS_BYTES
  {
    var limit := ReadPeriod(params);
    limit.amount > 0 && MIN_PERIOD_SECONDS <= limit.windowSeconds <= MAX_PERIOD_SECONDS && ZeroFrom(params, 12)
  }

  lemma {:induction false} CodeAt(params: seq<byte>, i: nat)
    requires |params| % 2 == 0 && 2 * i < |params|
    requires i <= |ReadCodes(params)|
    ensures i < |ReadCodes(params)| ==> ReadCodes(params)[i] == [params[2 * i] as char, params[2 * i + 1] as char]
    ensures i == |ReadCodes(params)| <==> params[2 * i] == 0 && params[2 * i + 1] == 0
  {
    if i > 0 && ReadCodes(params) != [] {
      CodeAt(params[2..], i - 1);
    }
  }

  predicate PairAfter(high: byte, low: byte, high': byte, low': byte) {
    high > high' || (high == high' && low > low')
  }

  lemma PairOrder(a: string, b: string)
    requires IsCode(a) && IsCode(b)
    ensures Before(a, b) <==> PairAfter(b[0] as int, b[1] as int, a[0] as int, a[1] as int)
  {
    assert Before(a[1..], b[1..]) <==> a[1] < b[1] || (a[1] == b[1] && Before(a[1..][1..], b[1..][1..]));
  }

  /** The first codes are codes, each after the one before it. */
  ghost predicate InOrderSoFar(codes: seq<string>, n: nat) {
    n <= |codes| && (forall i :: 0 <= i < n ==> IsCode(codes[i])) && Ascending(codes[..n], Before)
  }

  lemma OneMoreInOrder(codes: seq<string>, n: nat, next: nat)
    requires next == n + 1 <= |codes| && InOrderSoFar(codes, n) && IsCode(codes[n])
    requires n > 0 ==> Before(codes[n - 1], codes[n])
    ensures InOrderSoFar(codes, next)
  {
    ExtendAscending(codes, n);
  }

  lemma NotInOrder(codes: seq<string>, n: nat)
    requires 0 < n < |codes| && !Before(codes[n - 1], codes[n])
    ensures !Ascending(codes, Before)
  {
  }

  method ValidateJurisdictions(params: seq<byte>) returns (r: Check)
    requires |params| == RULE_PARAMS_BYTES
    ensures r.Pass? <==> JurisdictionsPass(params)
  {
    var count: nat := 0;
    var previousHigh: byte, previousLow: byte := 0, 0;
    var ended := false;
    ghost var codes := ReadCodes(params);
    for index := 0 to MAX_JURISDICTIONS
      invariant count <= |codes| && (if ended then count == |codes| && count < index else count == index)
      invariant InOrderSoFar(codes, count)
      invariant count > 0 ==> previousHigh == codes[count - 1][0] as int && previousLow == codes[count - 1][1] as int
      invariant ended ==> forall i :: 2 * count <= i < 2 * index ==> params[i] == 0
    {
      var high, low := params[2 * index], params[2 * index + 1];
      if !ended { CodeAt(params, index); }
      if high == 0 && low == 0 {
        ended := true;
        continue;
      }
      if ended { return Refuse(PolicyRulesNotCanonical); }
      if !('A' <= high as char <= 'Z' && 'A' <= low as char <= 'Z') {
        assert !IsCode(codes[index]);
        return Refuse(PolicyRuleParamsOutOfRange);
      }
      assert IsCode(codes[index]);
      if count > 0 { PairOrder(codes[count - 1], codes[count]); }
      if count > 0 && !PairAfter(high, low, previousHigh, previousLow) {
        NotInOrder(codes, count);
        return Refuse(PolicyRulesNotCanonical);
      }
      OneMoreInOrder(codes, count, count + 1);
      previousHigh, previousLow := high, low;
      count := count + 1;
    }
    assert codes[..|codes|] == codes;
    if count == 0 { return Refuse(PolicyRuleParamsOutOfRange); }
    r := Pass;
  }

  lemma ExtendAscending(codes: seq<string>, n: nat)
    requires n < |codes| && Ascending(codes[..n], Before)
    requires n > 0 ==> Before(codes[n - 1], codes[n])
    ensures Ascending(codes[..n + 1], Before)
  {
    BeforeIsOrder();
    forall i, j | 0 <= i < j < n + 1 ensures Before(codes[i], codes[j]) {
      if j < n {
        assert Before(codes[..n][i], codes[..n][j]);
      } else if i < n - 1 {
        assert Before(codes[..n][i], codes[..n][n - 1]);
      }
    }
  }

  // ─── All sixteen slots ─────────────────────────────────────────────────────

  /** The parameters of a used slot are inside the model and carry nothing more. */
  ghost predicate ParamsPass(slot: Slot)
    requires |slot.params| == RULE_PARAMS_BYTES
  {
    if slot.kind == KIND_STATUS then StatusPasses(slot.params)
    else if slot.kind == KIND_JURISDICTIONS then JurisdictionsPass(slot.params)
    else if slot.kind == KIND_TRANSFER_LIMIT then TransferLimitPasses(slot.params)
    else if slot.kind == KIND_PERIOD_LIMIT then PeriodLimitPasses(slot.params)
    else true
  }

  ghost predicate ProgramAccepts(slots: seq<Slot>)
    requires WellSized(slots)
  {
    Shaped(slots) && (forall i :: 0 <= i < |slots| ==> ParamsPass(slots[i])) && SlotOfKind(slots, KIND_STATUS).Some?
  }

  method ValidateParams(slot: Slot) returns (r: Check)
    requires |slot.params| == RULE_PARAMS_BYTES && slot.kind != 0
    ensures r.Pass? <==> slot.kind <= 4 && ParamsPass(slot)
  {
    var params := slot.params;
    if slot.kind == KIND_STATUS {
      var age := FromLittleEndian(params[2..6]);
      if !KnownMask(params[0]) { return Refuse(PolicyRuleParamsOutOfRange); }
      if age != 0 && !(MIN_ATTESTATION_AGE_SECONDS <= age <= MAX_ATTESTATION_AGE_SECONDS) {
        return Refuse(PolicyRuleParamsOutOfRange);
      }
      if params[0] % 2 == 1 && age == 0 { return Refuse(PolicyRuleParamsOutOfRange); }
      if !ZeroFrom(params, 6) { return Refuse(PolicyRulesNotCanonical); }
    } else if slot.kind == KIND_JURISDICTIONS {
      r := ValidateJurisdictions(params);
      return;
    } else if slot.kind == KIND_TRANSFER_LIMIT {
      if ReadAmount(params) == 0 { return Refuse(PolicyRuleParamsOutOfRange); }
      if !ZeroFrom(params, 8) { return Refuse(PolicyRulesNotCanonical); }
    } else if slot.kind == KIND_PERIOD_LIMIT {
      var limit := ReadPeriod(params);
      if limit.amount == 0 { return Refuse(PolicyRuleParamsOutOfRange); }
      if !(MIN_PERIOD_SECONDS <= limit.windowSeconds <= MAX_PERIOD_SECONDS) {
        return Refuse(PolicyRuleParamsOutOfRange);
      }
      if !ZeroFrom(params, 12) { return Refuse(PolicyRulesNotCanonical); }
    } else {
      return Refuse(PolicyRuleKindUnknown);
    }
    r := Pass;
  }

  /** Where the check stands after the first `index` slots. */
  ghost predicate Checked(slots: seq<Slot>, index: nat, previousKind: byte, ended: bool, hasStatus: bool)
    requires WellSized(slots) && index <= |slots|
  {
    && Shaped(slots[..index])
    && (forall i :: 0 <= i < index ==> ParamsPass(slots[i]))
    && (ended ==> exists i :: 0 <= i < index && slots[i].kind == 0)
    && (!ended ==> forall i :: 0 <= i < index ==> 0 < slots[i].kind <= previousKind)
    && (!ended ==> previousKind == if index == 0 then 0 else slots[index - 1].kind)
    && (hasStatus <==> exists i :: 0 <= i < index && slots[i].kind == KIND_STATUS)
  }

  lemma CheckEmpty(slots: seq<Slot>, index: nat, previousKind: byte, ended: bool, hasStatus: bool)
    requires WellSized(slots) && index < |slots| && slots[index] == EMPTY_SLOT
    requires Checked(slots, index, previousKind, ended, hasStatus)
    ensures Checked(slots, index + 1, previousKind, true, hasStatus)
  {
    assert slots[..index + 1] == slots[..index] + [slots[index]];
    assert slots[index].kind == 0;
  }

  lemma CheckRule(slots: seq<Slot>, index: nat, previousKind: byte, hasStatus: bool)
    requires WellSized(slots) && index < |slots| && slots[index].kind > previousKind
    requires WellFormedSlot(slots[index]) && ParamsPass(slots[index])
    requires Checked(slots, index, previousKind, false, hasStatus)
    ensures Checked(slots, index + 1, slots[index].kind, false, hasStatus || slots[index].kind == KIND_STATUS)
  {
    var head := slots[..index];
    assert slots[..index + 1] == head + [slots[index]];
    forall i | 0 <= i < index ensures 0 < head[i].kind < slots[index].kind { assert head[i] == slots[i]; }
    ShapedAppend(head, slots[index]);
  }

  /** Accepts exactly the arrays the encoder writes (`ProgramAcceptsExactlyEncodings`). */
  method Validate(slots: seq<Slot>) returns (r: Check)
    requires WellSized(slots)
    ensures r.Pass? <==> |slots| == MAX_RULE_SLOTS && ProgramAccepts(slots)
  {
    if |slots| != MAX_RULE_SLOTS { return Refuse(PolicyRulesNotCanonical); }
    var previousKind: byte := 0;
    var ended := false;
    var hasStatus := false;
    for index := 0 to MAX_RULE_SLOTS
      invariant Checked(slots, index, previousKind, ended, hasStatus)
    {
      var slot := slots[index];
      if slot.kind == 0 {
        if slot != EMPTY_SLOT { return Refuse(PolicyRulesNotCanonical); }
        CheckEmpty(slots, index, previousKind, ended, hasStatus);
        ended := true;
        continue;
      }
      if ended { return Refuse(PolicyRulesNotCanonical); }
      if slot.op != 0 { return Refuse(PolicyRulesNotCanonical); }
      if slot.kind <= previousKind { return Refuse(PolicyRulesNotCanonical); }
      var check := ValidateParams(slot);
      if check != Pass { return check; }
      assert slot.kind == KIND_STATUS ==> StatusPasses(slot.params);
      CheckRule(slots, index, previousKind, hasStatus);
      previousKind := slot.kind;
      hasStatus := hasStatus || slot.kind == KIND_STATUS;
    }
    assert slots[..MAX_RULE_SLOTS] == slots;
    if !hasStatus { return Refuse(PolicyStatusRuleMissing); }
    r := Pass;
  }

  // ─── The program and the encoder agree ─────────────────────────────────────

  lemma StatusPassesIff(params: seq<byte>)
    requires |params| == RULE_PARAMS_BYTES && KnownMask(params[0])
    ensures StatusPasses(params) <==> ValidStatus(ReadStatus(params)) && ZeroFrom(params, 6)
  {
  }

  lemma JurisdictionsPassIff(params: seq<byte>)
    requires |params| == RULE_PARAMS_BYTES
    ensures JurisdictionsPass(params) <==>
            ValidJurisdictions(ReadCodes(params)) && Ascending(ReadCodes(params), Before)
            && ZeroFrom(params, 2 * |ReadCodes(params)|)
  {
    BeforeIsOrder();
    if Ascending(ReadCodes(params), Before) { AscendingDistinct(ReadCodes(params), Before); }
  }

  lemma AmountsFit(params: seq<byte>)
    requires |params| == RULE_PARAMS_BYTES
    ensures ReadAmount(params) <= U64_MAX
  {
    FromLittleEndianRoundTrip(params[0..8]);
    Widths();
  }

  /** A used slot passes exactly when its rule is in the model and its parameters are canonical. */
  lemma SlotPassesIff(slots: seq<Slot>, i: nat)
    requires Sized(slots) && Shaped(slots) && i < |slots| && slots[i].kind != 0
    ensures ParamsPass(slots[i]) <==> CanonicalParams(slots[i]) && RuleValid(DraftOf(slots), slots[i].kind)
  {
    var slot := slots[i];
    assert WellFormedSlot(slot);
    assert SlotOfKind(slots, slot.kind) == Some(i);
    if slot.kind == KIND_STATUS { StatusPassesIff(slot.params); }
    if slot.kind == KIND_JURISDICTIONS { JurisdictionsPassIff(slot.params); }
    AmountsFit(slot.params);
  }

  /** The rule of one kind, if the draft has it, is inside the model. */
  predicate RuleValid(draft: Draft, kind: byte) {
    if kind == KIND_STATUS then draft.status.Some? ==> ValidStatus(draft.status.value)
    else if kind == KIND_JURISDICTIONS then draft.jurisdictions.Some? ==> ValidJurisdictions(draft.jurisdictions.value)
    else if kind == KIND_TRANSFER_LIMIT then draft.transferLimit.Some? ==> IsLimit(draft.transferLimit.value)
    else if kind == KIND_PERIOD_LIMIT then draft.periodLimit.Some? ==> ValidPeriod(draft.periodLimit.value)
    else true
  }

  lemma ProgramAcceptsCanonical(slots: seq<Slot>)
    requires Sized(slots)
    ensures ProgramAccepts(slots) <==> Accepted(slots) && Canonical(slots)
  {
    if Shaped(slots) {
      forall i | 0 <= i < |slots| && slots[i].kind != 0
        ensures ParamsPass(slots[i]) <==> CanonicalParams(slots[i]) && RuleValid(DraftOf(slots), slots[i].kind)
      {
        SlotPassesIff(slots, i);
      }
      forall kind: byte | 1 <= kind <= 4 && SlotOfKind(slots, kind).None? ensures RuleValid(DraftOf(slots), kind) {}
      var draft := DraftOf(slots);
      if draft.status.Some? {
        assert (forall kind: byte :: 1 <= kind <= 4 ==> RuleValid(draft, kind)) ==>
            RuleValid(draft, KIND_STATUS) && RuleValid(draft, KIND_JURISDICTIONS)
            && RuleValid(draft, KIND_TRANSFER_LIMIT) && RuleValid(draft, KIND_PERIOD_LIMIT);
      }
    }
  }

  /** What the encoder writes is canonical. */
  lemma EncodedCanonical(policy: Policy)
    requires Valid(policy) && Normal(policy)
    ensures Accepted(Slots(policy)) && Canonical(Slots(policy))
  {
    EncodedShape(policy);
    EncodedDraft(policy);
    assert Decode(Slots(policy)) == Some(policy);
    EncodesBackCanonical(Slots(policy));
  }

  /**
   * The program lets into the account exactly the arrays the encoder can produce, so on chain a
   * policy has one spelling — the promise the console's decoder alone does not keep.
   */
  lemma ProgramAcceptsExactlyEncodings(slots: seq<Slot>)
    requires Sized(slots)
    ensures ProgramAccepts(slots) <==> exists p :: Valid(p) && Encode(p) == Some(BytesOf(slots))
  {
    ProgramAcceptsCanonical(slots);
    SlotsOfBytesOf(slots);
    if ProgramAccepts(slots) {
      NormaliseValid(PolicyOf(DraftOf(slots)));
      EncodeDecode(BytesOf(slots));
      assert Encode(Decode(slots).value) == Some(BytesOf(slots));
    }
    if p :| Valid(p) && Encode(p) == Some(BytesOf(slots)) {
      NormaliseValid(p);
      SlotsOfBytesOf(Slots(Normalise(p)));
      EncodedCanonical(Normalise(p));
    }
  }
}
