/**
 * How the encoder and the decoder of a policy fit together.
 *
 * Decoding undoes encoding for every policy. The other way round the decoder is looser than its
 * own header says: bytes past a rule's parameters and the order of jurisdictions are not looked
 * at, and exactly those arrays do not encode back to themselves.
 */
module PolicyCodec {
  import opened Common
  import opened Ordering
  import opened LittleEndianBytes
  import opened PolicyModel
  import opened PolicyLayout
  import opened PolicyDecoding

  // ─── Parameters of one rule ────────────────────────────────────────────────

  lemma StatusReadsBack(rule: StatusRule)
    requires ValidStatus(rule) && CanonicalSources(rule.sources) == rule.sources
    ensures ReadStatus(StatusParams(rule)) == rule
    ensures KnownMask(StatusParams(rule)[0])
  {
    var age := if rule.maxAge.Some? then rule.maxAge.value else 0;
    Widths();
    LittleEndianRoundTrip(age, 4);
    assert StatusParams(rule)[2..6] == LittleEndian(age, 4);
    CanonicalMembers(rule.sources);
  }

  lemma {:induction false} CodesReadBack(codes: seq<string>, pad: nat)
    requires forall i :: 0 <= i < |codes| ==> IsCode(codes[i])
    ensures ReadCodes(CodePairs(codes) + Zeros(pad)) == codes
  {
    var params := CodePairs(codes) + Zeros(pad);
    if codes != [] {
      assert IsCode(codes[0]);
      assert params[2..] == CodePairs(codes[1..]) + Zeros(pad);
      CodesReadBack(codes[1..], pad);
      assert [codes[0][0], codes[0][1]] == codes[0];
      assert codes == [codes[0]] + codes[1..];
    }
  }

  lemma AmountReadsBack(amount: nat, window: Option<nat>)
    requires amount <= U64_MAX && (window.Some? ==> window.value < 0x1_0000_0000)
    ensures ReadAmount(AmountParams(amount, window)) == amount
    ensures window.Some? ==> ReadPeriod(AmountParams(amount, window)) == PeriodLimit(amount, window.value)
  {
    Widths();
    LittleEndianRoundTrip(amount, 8);
    var w := if window.Some? then window.value else 0;
    LittleEndianRoundTrip(w, 4);
    assert AmountParams(amount, window)[0..8] == LittleEndian(amount, 8);
    assert AmountParams(amount, window)[8..12] == LittleEndian(w, 4);
  }

  // ─── The slots of an encoded policy ────────────────────────────────────────

  lemma {:induction false} RulesUpToMembers(policy: Policy, k: nat, kind: byte)
    requires Valid(policy) && k <= 4 && 1 <= kind <= k
    ensures forall s :: s in RuleOf(policy, kind) ==> s in RulesUpTo(policy, k)
  {
    if kind < k { RulesUpToMembers(policy, k - 1, kind); }
  }

  /** Every used slot of an encoded policy is one of its rules. */
  lemma SlotIsRule(policy: Policy, i: nat)
    requires Valid(policy) && i < MAX_RULE_SLOTS && Slots(policy)[i].kind != 0
    ensures RuleOf(policy, Slots(policy)[i].kind) == [Slots(policy)[i]]
  {
    var rules := RulesUpTo(policy, 4);
    assert Slots(policy)[i] == rules[i];
    assert rules[i] in rules;
  }

  lemma RuleHasSlot(policy: Policy, kind: byte)
    requires Valid(policy) && 1 <= kind <= 4 && RuleOf(policy, kind) != []
    ensures exists i :: 0 <= i < MAX_RULE_SLOTS && Slots(policy)[i] == RuleOf(policy, kind)[0]
  {
    var rules := RulesUpTo(policy, 4);
    RulesUpToMembers(policy, 4, kind);
    var rule := RuleOf(policy, kind)[0];
    assert rule in RuleOf(policy, kind) && rule in rules;
    var i :| 0 <= i < |rules| && rules[i] == rule;
    assert Slots(policy)[i] == rule;
  }

  /** Each rule of a policy sits in exactly one slot. */
  lemma SlotsHoldRules(policy: Policy, kind: byte)
    requires Valid(policy) && kind != 0
    ensures SlotOfKind(Slots(policy), kind).Some? <==> RuleOf(policy, kind) != []
    ensures SlotOfKind(Slots(policy), kind).Some? ==>
              RuleOf(policy, kind) == [Slots(policy)[SlotOfKind(Slots(policy), kind).value]]
  {
    var at := SlotOfKind(Slots(policy), kind);
    if at.Some? {
      SlotIsRule(policy, at.value);
    } else if RuleOf(policy, kind) != [] {
      RuleHasSlot(policy, kind);
    }
  }

  lemma EncodedShape(policy: Policy)
    requires Valid(policy) && Normal(policy)
    ensures Shaped(Slots(policy))
  {
    var slots, rules := Slots(policy), RulesUpTo(policy, 4);
    StatusReadsBack(policy.status);
    forall i | 0 <= i < |slots| ensures WellFormedSlot(slots[i]) {
      if i < |rules| { assert slots[i] in rules; }
    }
  }

  lemma EncodedDraft(policy: Policy)
    requires Valid(policy) && Normal(policy)
    ensures DraftOf(Slots(policy)) ==
            Draft(Some(policy.status), policy.jurisdictions, policy.transferLimit, policy.periodLimit)
  {
    EncodedStatus(policy);
    EncodedJurisdictions(policy);
    EncodedLimits(policy);
  }

  lemma EncodedStatus(policy: Policy)
    requires Valid(policy) && Normal(policy)
    ensures DraftOf(Slots(policy)).status == Some(policy.status)
  {
    SlotsHoldRules(policy, KIND_STATUS);
    StatusReadsBack(policy.status);
  }

  lemma EncodedJurisdictions(policy: Policy)
    requires Valid(policy) && Normal(policy)
    ensures DraftOf(Slots(policy)).jurisdictions == policy.jurisdictions
  {
    SlotsHoldRules(policy, KIND_JURISDICTIONS);
    if policy.jurisdictions.Some? { JurisdictionsReadBack(policy.jurisdictions.value); }
  }

  lemma JurisdictionsReadBack(codes: seq<string>)
    requires ValidJurisdictions(codes)
    ensures ReadCodes(JurisdictionParams(codes)) == codes
  {
    CodesReadBack(codes, RULE_PARAMS_BYTES - 2 * |codes|);
  }

  lemma EncodedLimits(policy: Policy)
    requires Valid(policy) && Normal(policy)
    ensures DraftOf(Slots(policy)).transferLimit == policy.transferLimit
    ensures DraftOf(Slots(policy)).periodLimit == policy.periodLimit
  {
    SlotsHoldRules(policy, KIND_TRANSFER_LIMIT);
    SlotsHoldRules(policy, KIND_PERIOD_LIMIT);
    if policy.transferLimit.Some? { AmountReadsBack(policy.transferLimit.value, None); }
    if policy.periodLimit.Some? {
      AmountReadsBack(policy.periodLimit.value.amount, Some(policy.periodLimit.value.windowSeconds));
    }
  }

  /** Decoding undoes encoding, up to the normal form of the policy. */
  lemma DecodeEncode(policy: Policy)
    requires Valid(policy)
    ensures Decode(SlotsOf(Encode(policy).value)) == Some(Normalise(policy))
  {
    NormaliseValid(policy);
    var normal := Normalise(policy);
    SlotsOfBytesOf(Slots(normal));
    EncodedShape(normal);
    EncodedDraft(normal);
  }

  /** One name per content: two policies share their bytes exactly when they say the same. */
  lemma EncodeNamesContent(p: Policy, q: Policy)
    requires Valid(p) && Valid(q)
    ensures Encode(p) == Encode(q) <==> SameContent(p, q)
  {
    DecodeEncode(p);
    DecodeEncode(q);
    NormaliseCanonical(p, q);
  }

  // ─── Accepted arrays that encode back to themselves ────────────────────────

  predicate ZeroFrom(params: seq<byte>, from: nat) {
    forall i :: from <= i < |params| ==> params[i] == 0
  }

  /** Nothing past the rule's own parameters, and the jurisdictions in ascending order. */
  ghost predicate CanonicalParams(slot: Slot)
    requires |slot.params| == RULE_PARAMS_BYTES
  {
    if slot.kind == KIND_STATUS then ZeroFrom(slot.params, 6)
    else if slot.kind == KIND_JURISDICTIONS then
      var codes := ReadCodes(slot.params);
      ZeroFrom(slot.params, 2 * |codes|) && Ascending(codes, Before)
    else if slot.kind == KIND_TRANSFER_LIMIT then ZeroFrom(slot.params, 8)
    else if slot.kind == KIND_PERIOD_LIMIT then ZeroFrom(slot.params, 12)
    else true
  }

  ghost predicate Canonical(slots: seq<Slot>)
    requires WellSized(slots)
  {
    forall i :: 0 <= i < |slots| ==> CanonicalParams(slots[i])
  }

  lemma ZeroTail(params: seq<byte>, head: seq<byte>)
    requires |head| <= |params| && head == params[..|head|]
    ensures head + Zeros(|params| - |head|) == params <==> ZeroFrom(params, |head|)
  {
    var whole := head + Zeros(|params| - |head|);
    if ZeroFrom(params, |head|) {
      forall i | 0 <= i < |params| ensures whole[i] == params[i] {
        if i < |head| { assert params[i] == params[..|head|][i]; }
      }
    }
    if whole == params {
      forall i | |head| <= i < |params| ensures params[i] == 0 { assert whole[i] == 0; }
    }
  }

  lemma StatusRewrites(params: seq<byte>)
    requires |params| == RULE_PARAMS_BYTES && KnownMask(params[0])
    requires ValidStatus(ReadStatus(params))
    ensures CanonicalSources(ReadStatus(params).sources) == ReadStatus(params).sources
    ensures StatusParams(ReadStatus(params)) == params <==> ZeroFrom(params, 6)
  {
    var rule := ReadStatus(params);
    var head := [params[0], params[1]] + params[2..6];
    FromLittleEndianRoundTrip(params[2..6]);
    assert SourceMask(rule.sources) == params[0];
    assert head == params[..6];
    ZeroTail(params, head);
    assert StatusParams(rule) == head + Zeros(16);
  }

  lemma {:induction false} CodePairsRewrite(params: seq<byte>)
    requires forall i :: 0 <= i < |ReadCodes(params)| ==> IsCode(ReadCodes(params)[i])
    ensures CodePairs(ReadCodes(params)) == params[..2 * |ReadCodes(params)|]
  {
    var codes := ReadCodes(params);
    if codes != [] {
      assert codes[1..] == ReadCodes(params[2..]);
      CodePairsRewrite(params[2..]);
      assert IsCode(codes[0]);
    }
  }

  lemma CodesSpell(codes: seq<string>, params: seq<byte>)
    requires |params| == RULE_PARAMS_BYTES && ValidJurisdictions(codes)
    ensures JurisdictionParams(codes) == params <==>
            codes == ReadCodes(params) && ZeroFrom(params, 2 * |codes|)
  {
    if JurisdictionParams(codes) == params {
      CodesReadBack(codes, RULE_PARAMS_BYTES - 2 * |codes|);
    }
    if codes == ReadCodes(params) {
      CodePairsRewrite(params);
      ZeroTail(params, CodePairs(codes));
    }
  }

  lemma SortedIffAscending(codes: seq<string>)
    requires ValidJurisdictions(codes)
    ensures SortCodes(codes) == codes <==> Ascending(codes, Before)
  {
    SortedCodes(codes);
    BeforeIsOrder();
    if Ascending(codes, Before) { SortIdentity(codes, Before); }
  }

  lemma JurisdictionsRewrite(params: seq<byte>)
    requires |params| == RULE_PARAMS_BYTES && ValidJurisdictions(ReadCodes(params))
    ensures ValidJurisdictions(SortCodes(ReadCodes(params)))
    ensures JurisdictionParams(SortCodes(ReadCodes(params))) == params <==>
            ZeroFrom(params, 2 * |ReadCodes(params)|) && Ascending(ReadCodes(params), Before)
  {
    var codes := ReadCodes(params);
    SortedCodes(codes);
    SortedIffAscending(codes);
    CodesSpell(SortCodes(codes), params);
  }

  lemma AmountRewrites(params: seq<byte>)
    requires |params| == RULE_PARAMS_BYTES
    ensures AmountParams(ReadAmount(params), None) == params <==> ZeroFrom(params, 8)
    ensures AmountParams(ReadPeriod(params).amount, Some(ReadPeriod(params).windowSeconds)) == params <==>
            ZeroFrom(params, 12)
  {
    FromLittleEndianRoundTrip(params[0..8]);
    FromLittleEndianRoundTrip(params[8..12]);
    LittleEndianOfZero(4);
    ZeroTail(params, params[0..8]);
    assert AmountParams(ReadAmount(params), None) == params[0..8] + Zeros(14);
    ZeroTail(params, params[0..8] + params[8..12]);
  }

  lemma {:induction false} LittleEndianOfZero(width: nat)
    ensures LittleEndian(0, width) == Zeros(width)
  {
    if width > 0 {
      LittleEndianOfZero(width - 1);
    }
  }

  lemma UsedSlotOfKind(slots: seq<Slot>, i: nat)
    requires Sized(slots) && Accepted(slots) && i < |slots| && slots[i].kind != 0
    ensures WellFormedSlot(slots[i]) && SlotOfKind(slots, slots[i].kind) == Some(i)
  {
  }

  /** A used slot of an accepted array is the slot its rule encodes to exactly when its parameters are canonical. */
  lemma SlotRewrites(slots: seq<Slot>, i: nat)
    requires Sized(slots) && Accepted(slots) && i < |slots| && slots[i].kind != 0
    ensures Valid(Decode(slots).value)
    ensures |RuleOf(Decode(slots).value, slots[i].kind)| == 1
    ensures RuleOf(Decode(slots).value, slots[i].kind) == [slots[i]] <==> CanonicalParams(slots[i])
  {
    var drafted := PolicyOf(DraftOf(slots));
    NormaliseValid(drafted);
    var slot := slots[i];
    UsedSlotOfKind(slots, i);
    if slot.kind == KIND_STATUS {
      StatusSlotRewrites(slots, i);
    } else if slot.kind == KIND_JURISDICTIONS {
      JurisdictionsSlotRewrites(slots, i);
    } else {
      LimitSlotRewrites(slots, i);
    }
  }

  lemma StatusSlotRewrites(slots: seq<Slot>, i: nat)
    requires Sized(slots) && Accepted(slots) && Valid(Decode(slots).value) && i < |slots|
    requires slots[i].kind == KIND_STATUS && WellFormedSlot(slots[i]) && SlotOfKind(slots, KIND_STATUS) == Some(i)
    ensures |RuleOf(Decode(slots).value, KIND_STATUS)| == 1
    ensures RuleOf(Decode(slots).value, KIND_STATUS) == [slots[i]] <==> CanonicalParams(slots[i])
  {
    StatusRewrites(slots[i].params);
  }

  lemma JurisdictionsSlotRewrites(slots: seq<Slot>, i: nat)
    requires Sized(slots) && Accepted(slots) && Valid(Decode(slots).value) && i < |slots|
    requires slots[i].kind == KIND_JURISDICTIONS && WellFormedSlot(slots[i])
    requires SlotOfKind(slots, KIND_JURISDICTIONS) == Some(i)
    ensures |RuleOf(Decode(slots).value, KIND_JURISDICTIONS)| == 1
    ensures RuleOf(Decode(slots).value, KIND_JURISDICTIONS) == [slots[i]] <==> CanonicalParams(slots[i])
  {
    JurisdictionsRewrite(slots[i].params);
  }

  lemma LimitSlotRewrites(slots: seq<Slot>, i: nat)
    requires Sized(slots) && Accepted(slots) && Valid(Decode(slots).value) && i < |slots|
    requires slots[i].kind in {KIND_TRANSFER_LIMIT, KIND_PERIOD_LIMIT} && WellFormedSlot(slots[i])
    requires SlotOfKind(slots, slots[i].kind) == Some(i)
    ensures |RuleOf(Decode(slots).value, slots[i].kind)| == 1
    ensures RuleOf(Decode(slots).value, slots[i].kind) == [slots[i]] <==> CanonicalParams(slots[i])
  {
    AmountRewrites(slots[i].params);
  }

  ghost predicate KindBefore(a: Slot, b: Slot) { a.kind < b.kind }

  lemma UsedSlotIsRule(slots: seq<Slot>, i: nat)
    requires Sized(slots) && Accepted(slots) && Canonical(slots) && i < |slots| && slots[i].kind != 0
    ensures Valid(Decode(slots).value) && slots[i] in RulesUpTo(Decode(slots).value, 4)
  {
    SlotRewrites(slots, i);
    assert WellFormedSlot(slots[i]);
    RulesUpToMembers(Decode(slots).value, 4, slots[i].kind);
  }

  lemma RuleIsUsedSlot(slots: seq<Slot>, rule: Slot)
    requires Sized(slots) && Accepted(slots) && Canonical(slots) && Valid(Decode(slots).value)
    requires rule in RulesUpTo(Decode(slots).value, 4)
    ensures exists i :: 0 <= i < |slots| && slots[i] == rule
  {
    assert rule in RuleOf(Decode(slots).value, rule.kind);
    DecodedRules(slots, rule.kind);
    var i := SlotOfKind(slots, rule.kind).value;
    SlotRewrites(slots, i);
  }

  /** The rules of a decoded policy come from slots of their kinds. */
  lemma DecodedRules(slots: seq<Slot>, kind: byte)
    requires Sized(slots) && Accepted(slots) && Valid(Decode(slots).value)
    requires RuleOf(Decode(slots).value, kind) != []
    ensures SlotOfKind(slots, kind).Some?
  {
  }

  /** The used slots of an accepted array whose parameters are canonical are the rules of its policy. */
  lemma CanonicalRule(slots: seq<Slot>, n: nat, s: Slot)
    requires Sized(slots) && Accepted(slots) && Canonical(slots) && n <= |slots|
    requires forall i :: 0 <= i < |slots| ==> (slots[i].kind != 0 <==> i < n)
    requires Valid(Decode(slots).value)
    ensures s in slots[..n] <==> s in RulesUpTo(Decode(slots).value, 4)
  {
    if s in slots[..n] {
      var i :| 0 <= i < n && slots[i] == s;
      UsedSlotIsRule(slots, i);
    }
    if s in RulesUpTo(Decode(slots).value, 4) {
      RuleIsUsedSlot(slots, s);
      var i :| 0 <= i < |slots| && slots[i] == s;
      assert s == slots[..n][i];
    }
  }

  lemma CanonicalRules(slots: seq<Slot>, n: nat)
    requires Sized(slots) && Accepted(slots) && Canonical(slots) && n <= |slots|
    requires forall i :: 0 <= i < |slots| ==> (slots[i].kind != 0 <==> i < n)
    requires Valid(Decode(slots).value)
    ensures slots[..n] == RulesUpTo(Decode(slots).value, 4)
  {
    var rules := RulesUpTo(Decode(slots).value, 4);
    forall s ensures s in slots[..n] <==> s in rules { CanonicalRule(slots, n, s); }
    AscendingUnique(slots[..n], rules, KindBefore);
  }

  function UsedSlots(slots: seq<Slot>): nat {
    if slots == [] || slots[0].kind == 0 then 0 else 1 + UsedSlots(slots[1..])
  }

  lemma {:induction false} UsedSlotsLead(slots: seq<Slot>)
    requires WellSized(slots) && Shaped(slots)
    ensures UsedSlots(slots) <= |slots|
    ensures forall i :: 0 <= i < |slots| ==> (slots[i].kind != 0 <==> i < UsedSlots(slots))
  {
    if slots != [] && slots[0].kind != 0 {
      UsedSlotsLead(slots[1..]);
      forall i | 1 <= i < |slots| ensures slots[i].kind != 0 <==> i < UsedSlots(slots) {
        assert slots[i] == slots[1..][i - 1];
      }
    }
  }

  /** A policy takes as many slots as it has rules, and they are the first ones. */
  lemma UsedRuleSlotsAreUsed(policy: Policy)
    requires Valid(policy)
    ensures UsedRuleSlots(policy) <= MAX_RULE_SLOTS
    ensures forall i :: 0 <= i < MAX_RULE_SLOTS ==> (Slots(policy)[i].kind != 0 <==> i < UsedRuleSlots(policy))
  {
    var rules := RulesUpTo(policy, 4);
    RulesUpToCount(policy);
    assert forall i :: 0 <= i < |rules| ==> rules[i] in rules && Slots(policy)[i] == rules[i];
  }

  lemma RulesUpToCount(policy: Policy)
    requires Valid(policy)
    ensures |RulesUpTo(policy, 4)| == UsedRuleSlots(policy)
  {
    assert |RulesUpTo(policy, 1)| == 1;
    assert |RulesUpTo(policy, 2)| == |RulesUpTo(policy, 1)| + if policy.jurisdictions.Some? then 1 else 0;
    assert |RulesUpTo(policy, 3)| == |RulesUpTo(policy, 2)| + if policy.transferLimit.Some? then 1 else 0;
  }

  lemma CanonicalEncodesBack(slots: seq<Slot>)
    requires Sized(slots) && Accepted(slots) && Canonical(slots) && Valid(Decode(slots).value)
    ensures Slots(Decode(slots).value) == slots
  {
    var n := UsedSlots(slots);
    UsedSlotsLead(slots);
    CanonicalRules(slots, n);
    forall i | n <= i < |slots| ensures slots[i] == EMPTY_SLOT { assert WellFormedSlot(slots[i]); }
    PadOfUsed(slots, n);
  }

  lemma PadOfUsed(slots: seq<Slot>, n: nat)
    requires |slots| == MAX_RULE_SLOTS && n <= |slots| && forall i :: n <= i < |slots| ==> slots[i] == EMPTY_SLOT
    ensures slots == Pad(slots[..n])
  {
  }

  lemma EncodesBackCanonical(slots: seq<Slot>)
    requires Sized(slots) && Accepted(slots) && Valid(Decode(slots).value)
    requires Slots(Decode(slots).value) == slots
    ensures Canonical(slots)
  {
    forall i | 0 <= i < |slots| ensures CanonicalParams(slots[i]) {
      if slots[i].kind != 0 {
        SlotRewrites(slots, i);
        SlotIsRule(Decode(slots).value, i);
      }
    }
  }

  /**
   * The exact reach of "encode undoes decode": an accepted array encodes back to itself if and
   * only if no rule carries bytes past its parameters and its jurisdictions ascend.
   */
  lemma EncodeDecode(bytes: seq<byte>)
    requires |bytes| == RULES_BYTES && Accepted(SlotsOf(bytes))
    ensures Encode(Decode(SlotsOf(bytes)).value) == Some(bytes) <==> Canonical(SlotsOf(bytes))
  {
    var slots := SlotsOf(bytes);
    NormaliseValid(PolicyOf(DraftOf(slots)));
    var policy := Decode(slots).value;
    BytesOfSlotsOf(bytes);
    SlotsOfBytesOf(Slots(policy));
    assert Encode(policy) == Some(bytes) <==> Slots(policy) == slots;
    if Canonical(slots) { CanonicalEncodesBack(slots); }
    if Slots(policy) == slots { EncodesBackCanonical(slots); }
  }

  // ─── An accepted array the encoder never writes ────────────────────────────

  /** The encoding of a policy with its very last parameter byte of the status rule set. */
  function Strayed(policy: Policy): (slots: seq<Slot>)
    requires Valid(policy)
    ensures Sized(slots)
  {
    var slots := Slots(policy);
    slots[0 := slots[0].(params := slots[0].params[21 := 1])]
  }

  lemma StatusAlone(policy: Policy)
    requires Valid(policy)
    ensures |RulesUpTo(policy, 1)| > 0 && RulesUpTo(policy, 1)[0].kind == KIND_STATUS
  {
    assert RulesUpTo(policy, 0) == [];
  }

  lemma FirstStays(policy: Policy, k: nat, before: seq<Slot>)
    requires Valid(policy) && 1 <= k <= 4 && before == RulesUpTo(policy, k - 1) && before != []
    ensures RulesUpTo(policy, k) != [] && RulesUpTo(policy, k)[0] == before[0]
  {
    var last := RuleOf(policy, k);
    assert RulesUpTo(policy, k) == before + last;
  }

  lemma StatusFirst(policy: Policy)
    requires Valid(policy)
    ensures |RulesUpTo(policy, 4)| > 0 && RulesUpTo(policy, 4)[0].kind == KIND_STATUS
  {
    StatusAlone(policy);
    FirstStays(policy, 2, RulesUpTo(policy, 1));
    FirstStays(policy, 3, RulesUpTo(policy, 2));
    FirstStays(policy, 4, RulesUpTo(policy, 3));
  }

  lemma {:induction false} SameKindsSameSlots(a: seq<Slot>, b: seq<Slot>, kind: byte)
    requires |a| == |b| && forall i :: 0 <= i < |a| ==> a[i].kind == b[i].kind
    ensures SlotOfKind(a, kind) == SlotOfKind(b, kind)
  {
    if a != [] && a[0].kind != kind { SameKindsSameSlots(a[1..], b[1..], kind); }
  }

  lemma StrayedDraft(policy: Policy)
    requires Valid(policy) && Normal(policy)
    ensures Slots(policy)[0].kind == KIND_STATUS
    ensures DraftOf(Strayed(policy)) == DraftOf(Slots(policy))
  {
    StatusFirst(policy);
    var slots, stray := Slots(policy), Strayed(policy);
    assert stray[0].params[2..6] == slots[0].params[2..6];
    forall kind { SameKindsSameSlots(slots, stray, kind); }
    forall kind | kind != KIND_STATUS && SlotOfKind(slots, kind).Some?
      ensures stray[SlotOfKind(slots, kind).value] == slots[SlotOfKind(slots, kind).value]
    {
    }
  }

  /** The decoder reads that array as the very same policy, yet it is not what the policy encodes to. */
  lemma StrayByteAccepted(policy: Policy)
    requires Valid(policy) && Normal(policy)
    ensures Decode(Strayed(policy)) == Some(policy)
    ensures Encode(policy) != Some(BytesOf(Strayed(policy)))
  {
    StrayedReads(policy);
    StrayedDiffers(policy);
  }

  lemma StrayedReads(policy: Policy)
    requires Valid(policy) && Normal(policy)
    ensures Decode(Strayed(policy)) == Some(policy)
  {
    var slots, stray := Slots(policy), Strayed(policy);
    EncodedShape(policy);
    EncodedDraft(policy);
    StrayedDraft(policy);
    forall i | 0 <= i < |stray| ensures WellFormedSlot(stray[i]) { assert WellFormedSlot(slots[i]); }
  }

  lemma StrayedDiffers(policy: Policy)
    requires Valid(policy) && Normal(policy)
    ensures Encode(policy) != Some(BytesOf(Strayed(policy)))
  {
    var slots, stray := Slots(policy), Strayed(policy);
    StrayedDraft(policy);
    SlotsOfBytesOf(stray);
    SlotsOfBytesOf(slots);
    assert stray[0].params[21] == 1;
    StatusZeroTail(policy);
  }

  lemma StatusZeroTail(policy: Policy)
    requires Valid(policy) && Slots(policy)[0].kind == KIND_STATUS
    ensures Slots(policy)[0].params[21] == 0
  {
    SlotIsRule(policy, 0);
  }
}
