/** Reading the `rules` field back (packages/policy/src/layout.ts, `decodeRules`). */
module PolicyDecoding {
  import opened Common
  import opened LittleEndianBytes
  import opened PolicyModel
  import opened PolicyLayout

  /** What the decoder collects before the schema sees it: every rule may still be missing. */
  datatype Draft = Draft(
    status: Option<StatusRule>,
    jurisdictions: Option<seq<string>>,
    transferLimit: Option<int>,
    periodLimit: Option<PeriodLimit>)

  const NO_RULES := Draft(None, None, None, None)

  datatype LayoutError =
    | WrongLength
    | EmptyNotZeroed(index: nat)
    | AfterEmpty(index: nat)
    | ReservedByteSet(index: nat)
    | KindTwice(kind: byte)
    | KindsOutOfOrder(index: nat)
    | UnknownSources(mask: byte)
    | UnknownKind(index: nat)
    | NotAPolicy

  // ─── Parameters ────────────────────────────────────────────────────────────

  predicate KnownMask(mask: byte) { 0 < mask < 4 }

  function ReadStatus(params: seq<byte>): StatusRule
    requires |params| == RULE_PARAMS_BYTES
  {
    var age := FromLittleEndian(params[2..6]);
    StatusRule(
      (if params[0] % 2 == 1 then [Provider] else []) + (if (params[0] / 2) % 2 == 1 then [Register] else []),
      params[1],
      if age == 0 then None else Some(age))
  }

  /** Pairs of bytes up to the first pair of zeros. */
  function ReadCodes(params: seq<byte>): (codes: seq<string>)
    ensures 2 * |codes| <= |params|
    ensures forall i :: 0 <= i < |codes| ==> |codes[i]| == 2
  {
    if |params| < 2 || (params[0] == 0 && params[1] == 0) then []
    else [[params[0] as char, params[1] as char]] + ReadCodes(params[2..])
  }

  method ReadJurisdictions(params: seq<byte>) returns (codes: seq<string>)
    requires |params| == RULE_PARAMS_BYTES
    ensures codes == ReadCodes(params)
  {
    codes := [];
    var i := 0;
    while i * 2 < RULE_PARAMS_BYTES
      invariant i <= MAX_JURISDICTIONS
      invariant ReadCodes(params) == codes + ReadCodes(params[i * 2..])
    {
      var high, low := params[i * 2], params[i * 2 + 1];
      ReadCodesAt(params, i * 2, (i + 1) * 2);
      if high == 0 && low == 0 { break; }
      codes := codes + [[high as char, low as char]];
      i := i + 1;
    }
    assert codes + [] == codes;
  }

  lemma ReadCodesAt(params: seq<byte>, at: nat, next: nat)
    requires next == at + 2 <= |params|
    ensures ReadCodes(params[at..]) ==
            if params[at] == 0 && params[at + 1] == 0 then []
            else [[params[at] as char, params[at + 1] as char]] + ReadCodes(params[next..])
  {
    assert params[at..][2..] == params[next..];
  }

  function ReadAmount(params: seq<byte>): nat
    requires |params| == RULE_PARAMS_BYTES
  {
    FromLittleEndian(params[0..8])
  }

  function ReadPeriod(params: seq<byte>): PeriodLimit
    requires |params| == RULE_PARAMS_BYTES
  {
    PeriodLimit(FromLittleEndian(params[0..8]), FromLittleEndian(params[8..12]))
  }

  // ─── What an accepted array looks like ─────────────────────────────────────

  /** The first slot of a kind. */
  function SlotOfKind(slots: seq<Slot>, kind: byte): (r: Option<nat>)
    ensures r.Some? ==> r.value < |slots| && slots[r.value].kind == kind
    ensures r.Some? ==> forall i :: 0 <= i < r.value ==> slots[i].kind != kind
    ensures r.None? ==> forall i :: 0 <= i < |slots| ==> slots[i].kind != kind
  {
    if slots == [] then None
    else if slots[0].kind == kind then Some(0)
    else
      var rest := SlotOfKind(slots[1..], kind);
      if rest.Some? then Some(rest.value + 1) else None
  }

  predicate WellSized(slots: seq<Slot>) {
    forall i :: 0 <= i < |slots| ==> |slots[i].params| == RULE_PARAMS_BYTES
  }

  /** A slot on its own: an empty one is blank, a used one is of a known kind with a zero `op`. */
  predicate WellFormedSlot(slot: Slot)
    requires |slot.params| == RULE_PARAMS_BYTES
  {
    if slot.kind == 0 then slot == EMPTY_SLOT
    else slot.op == 0 && slot.kind <= 4 && (slot.kind == KIND_STATUS ==> KnownMask(slot.params[0]))
  }

  /** Slots together: used ones first, strictly ascending by kind. */
  predicate Shaped(slots: seq<Slot>)
    requires WellSized(slots)
  {
    && (forall i :: 0 <= i < |slots| ==> WellFormedSlot(slots[i]))
    && (forall i, j :: 0 <= i < j < |slots| && slots[j].kind != 0 ==> 0 < slots[i].kind < slots[j].kind)
  }

  function DraftOf(slots: seq<Slot>): Draft
    requires WellSized(slots)
  {
    var status := SlotOfKind(slots, KIND_STATUS);
    var jurisdictions := SlotOfKind(slots, KIND_JURISDICTIONS);
    var transfer := SlotOfKind(slots, KIND_TRANSFER_LIMIT);
    var period := SlotOfKind(slots, KIND_PERIOD_LIMIT);
    Draft(
      if status.Some? then Some(ReadStatus(slots[status.value].params)) else None,
      if jurisdictions.Some? then Some(ReadCodes(slots[jurisdictions.value].params)) else None,
      if transfer.Some? then Some(ReadAmount(slots[transfer.value].params)) else None,
      if period.Some? then Some(ReadPeriod(slots[period.value].params)) else None)
  }

  function PolicyOf(draft: Draft): Policy
    requires draft.status.Some?
  {
    Policy(draft.status.value, draft.jurisdictions, draft.transferLimit, draft.periodLimit)
  }

  predicate Accepted(slots: seq<Slot>)
    requires WellSized(slots)
  {
    Shaped(slots) && DraftOf(slots).status.Some? && Valid(PolicyOf(DraftOf(slots)))
  }

  function Decode(slots: seq<Slot>): Option<Policy>
    requires WellSized(slots)
  {
    if Accepted(slots) then Some(Normalise(PolicyOf(DraftOf(slots)))) else None
  }

  // ─── The decoder ───────────────────────────────────────────────────────────

  lemma {:induction false} SlotOfKindAppend(slots: seq<Slot>, slot: Slot, kind: byte)
    ensures SlotOfKind(slots + [slot], kind) ==
            if SlotOfKind(slots, kind).Some? then SlotOfKind(slots, kind)
            else if slot.kind == kind then Some(|slots|) else None
  {
    if slots != [] {
      assert (slots + [slot])[1..] == slots[1..] + [slot];
      SlotOfKindAppend(slots[1..], slot, kind);
    }
  }

  function WithRule(draft: Draft, slot: Slot): Draft
    requires |slot.params| == RULE_PARAMS_BYTES
  {
    if slot.kind == KIND_STATUS then draft.(status := Some(ReadStatus(slot.params)))
    else if slot.kind == KIND_JURISDICTIONS then draft.(jurisdictions := Some(ReadCodes(slot.params)))
    else if slot.kind == KIND_TRANSFER_LIMIT then draft.(transferLimit := Some(ReadAmount(slot.params)))
    else if slot.kind == KIND_PERIOD_LIMIT then draft.(periodLimit := Some(ReadPeriod(slot.params)))
    else draft
  }

  lemma DraftAppend(slots: seq<Slot>, slot: Slot)
    requires WellSized(slots) && |slot.params| == RULE_PARAMS_BYTES
    requires SlotOfKind(slots, slot.kind).None?
    ensures WellSized(slots + [slot])
    ensures DraftOf(slots + [slot]) == WithRule(DraftOf(slots), slot)
  {
    SlotOfKindAppend(slots, slot, KIND_STATUS);
    SlotOfKindAppend(slots, slot, KIND_JURISDICTIONS);
    SlotOfKindAppend(slots, slot, KIND_TRANSFER_LIMIT);
    SlotOfKindAppend(slots, slot, KIND_PERIOD_LIMIT);
  }

  lemma DraftAppendEmpty(slots: seq<Slot>)
    requires WellSized(slots)
    ensures WellSized(slots + [EMPTY_SLOT])
    ensures DraftOf(slots + [EMPTY_SLOT]) == DraftOf(slots)
  {
    SlotOfKindAppend(slots, EMPTY_SLOT, KIND_STATUS);
    SlotOfKindAppend(slots, EMPTY_SLOT, KIND_JURISDICTIONS);
    SlotOfKindAppend(slots, EMPTY_SLOT, KIND_TRANSFER_LIMIT);
    SlotOfKindAppend(slots, EMPTY_SLOT, KIND_PERIOD_LIMIT);
  }

  /** Where the walk over the slots stands after the first `index` of them. */
  ghost predicate Walked(slots: seq<Slot>, index: nat, draft: Draft, seen: set<byte>, previousKind: byte, ended: bool)
    requires WellSized(slots) && index <= |slots|
  {
    && Shaped(slots[..index])
    && draft == DraftOf(slots[..index])
    && (forall k :: k in seen ==> exists i :: 0 <= i < index && slots[i].kind == k != 0)
    && (ended ==> exists i :: 0 <= i < index && slots[i].kind == 0)
    && (!ended ==> (forall i :: 0 <= i < index ==> 0 < slots[i].kind <= previousKind))
    && (!ended ==> previousKind == if index == 0 then 0 else slots[index - 1].kind)
  }

  lemma WalkEmpty(slots: seq<Slot>, index: nat, draft: Draft, seen: set<byte>, previousKind: byte, ended: bool)
    requires WellSized(slots) && index < |slots|
    requires Walked(slots, index, draft, seen, previousKind, ended) && slots[index] == EMPTY_SLOT
    ensures Walked(slots, index + 1, draft, seen, previousKind, true)
  {
    assert slots[..index + 1] == slots[..index] + [slots[index]];
    DraftAppendEmpty(slots[..index]);
    assert slots[index].kind == 0;
  }

  lemma ShapedAppend(slots: seq<Slot>, slot: Slot)
    requires WellSized(slots) && Shaped(slots) && |slot.params| == RULE_PARAMS_BYTES && WellFormedSlot(slot)
    requires forall i :: 0 <= i < |slots| ==> 0 < slots[i].kind < slot.kind
    ensures WellSized(slots + [slot]) && Shaped(slots + [slot])
  {
  }

  lemma WalkRule(slots: seq<Slot>, index: nat, draft: Draft, seen: set<byte>, previousKind: byte)
    requires WellSized(slots) && index < |slots|
    requires Walked(slots, index, draft, seen, previousKind, false)
    requires slots[index].kind > previousKind && WellFormedSlot(slots[index])
    ensures Walked(slots, index + 1, WithRule(draft, slots[index]), seen + {slots[index].kind}, slots[index].kind, false)
  {
    var slot := slots[index];
    var head := slots[..index];
    assert slots[..index + 1] == head + [slot];
    forall i | 0 <= i < index ensures 0 < head[i].kind < slot.kind { assert head[i] == slots[i]; }
    ShapedAppend(head, slot);
    DraftAppend(head, slot);
    forall k | k in seen + {slot.kind} ensures exists i :: 0 <= i < index + 1 && slots[i].kind == k != 0 {
      if k == slot.kind { assert slots[index].kind == k; }
    }
  }

  /** Adds what a used slot says to the draft. */
  method ReadRule(before: Draft, slot: Slot) returns (draft: Draft)
    requires |slot.params| == RULE_PARAMS_BYTES && 1 <= slot.kind <= 4
    ensures draft == WithRule(before, slot)
  {
    draft := before;
    if slot.kind == KIND_STATUS {
      draft := draft.(status := Some(ReadStatus(slot.params)));
    } else if slot.kind == KIND_JURISDICTIONS {
      var codes := ReadJurisdictions(slot.params);
      draft := draft.(jurisdictions := Some(codes));
    } else if slot.kind == KIND_TRANSFER_LIMIT {
      draft := draft.(transferLimit := Some(ReadAmount(slot.params)));
    } else {
      draft := draft.(periodLimit := Some(ReadPeriod(slot.params)));
    }
  }

  /** 384 bytes to policy. Accepts exactly the arrays of an accepted shape that spell a valid policy. */
  method DecodeRules(bytes: seq<byte>) returns (r: Result<Policy, LayoutError>)
    ensures r.Ok? <==> |bytes| == RULES_BYTES && Accepted(SlotsOf(bytes))
    ensures r.Ok? ==> Decode(SlotsOf(bytes)) == Some(r.value)
  {
    if |bytes| != RULES_BYTES { return Err(WrongLength); }
    var slots := SlotsOf(bytes);
    var draft := NO_RULES;
    var seen: set<byte> := {};
    var previousKind: byte := 0;
    var ended := false;
    for index := 0 to MAX_RULE_SLOTS
      invariant Walked(slots, index, draft, seen, previousKind, ended)
    {
      var slot := slots[index];
      var kind, params := slot.kind, slot.params;
      if kind == 0 {
        if slot != EMPTY_SLOT { return Err(EmptyNotZeroed(index)); }
        WalkEmpty(slots, index, draft, seen, previousKind, ended);
        ended := true;
        continue;
      }
      if ended { return Err(AfterEmpty(index)); }
      if slot.op != 0 { return Err(ReservedByteSet(index)); }
      if kind in seen { return Err(KindTwice(kind)); }
      if kind <= previousKind { return Err(KindsOutOfOrder(index)); }
      if kind > 4 { return Err(UnknownKind(index)); }
      if kind == KIND_STATUS && !KnownMask(params[0]) { return Err(UnknownSources(params[0])); }
      WalkRule(slots, index, draft, seen, previousKind);
      seen := seen + {kind};
      previousKind := kind;
      draft := ReadRule(draft, slot);
    }
    assert slots[..MAX_RULE_SLOTS] == slots;
    if draft.status.None? { return Err(NotAPolicy); }
    var parsed := Parse(PolicyOf(draft));
    if parsed.None? { return Err(NotAPolicy); }
    r := Ok(parsed.value);
  }
}
