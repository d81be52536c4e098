/** Fixed-width little-endian integers. */
module LittleEndianBytes {
  import opened Common

  function Zeros(n: nat): (r: seq<byte>)
    ensures |r| == n
  {
    seq(n, _ => 0)
  }

  function Pow256(k: nat): nat {
    if k == 0 then 1 else 256 * Pow256(k - 1)
  }

  function LittleEndian(n: nat, width: nat): (r: seq<byte>)
    ensures |r| == width
  {
    if width == 0 then [] else [n % 256] + LittleEndian(n / 256, width - 1)
  }

  function FromLittleEndian(b: seq<byte>): nat {
    if b == [] then 0 else b[0] + 256 * FromLittleEndian(b[1..])
  }

  lemma {:induction false} LittleEndianRoundTrip(n: nat, width: nat)
    requires n < Pow256(width)
    ensures FromLittleEndian(LittleEndian(n, width)) == n
  {
    if width > 0 { LittleEndianRoundTrip(n / 256, width - 1); }
  }

  lemma {:induction false} FromLittleEndianRoundTrip(b: seq<byte>)
    ensures FromLittleEndian(b) < Pow256(|b|)
    ensures LittleEndian(FromLittleEndian(b), |b|) == b
  {
    if b != [] {
      FromLittleEndianRoundTrip(b[1..]);
      assert b == [b[0]] + b[1..];
    }
  }

  lemma Widths()
    ensures Pow256(4) == 0x1_0000_0000
    ensures Pow256(8) == U64_MAX + 1
  {
    assert Pow256(1) == 256;
    assert Pow256(2) == 65536;
    assert Pow256(3) == 16777216;
    assert Pow256(5) == 256 * Pow256(4);
    assert Pow256(6) == 256 * Pow256(5);
    assert Pow256(7) == 256 * Pow256(6);
  }
}

/** The 384 bytes of `PolicyConfig.rules` (packages/policy/src/layout.ts). */
module PolicyLayout {
  import opened Common
  import opened LittleEndianBytes
  import opened PolicyModel

  /** A slot of the array: the rule's kind, a reserved byte and 22 bytes of parameters. */
  datatype Slot = Slot(kind: byte, op: byte, params: seq<byte>)

  const EMPTY_SLOT := Slot(0, 0, Zeros(RULE_PARAMS_BYTES))

  predicate Sized(slots: seq<Slot>) {
    |slots| == MAX_RULE_SLOTS && forall i :: 0 <= i < |slots| ==> |slots[i].params| == RULE_PARAMS_BYTES
  }

  function SlotsOf(bytes: seq<byte>): (slots: seq<Slot>)
    requires |bytes| == RULES_BYTES
    ensures Sized(slots)
  {
    seq(MAX_RULE_SLOTS, i requires 0 <= i < MAX_RULE_SLOTS =>
      Slot(bytes[24 * i], bytes[24 * i + 1], bytes[24 * i + 2..24 * i + 24]))
  }

  function SlotByte(slot: Slot, j: nat): byte
    requires |slot.params| == RULE_PARAMS_BYTES && j < RULE_SLOT_BYTES
  {
    if j == 0 then slot.kind else if j == 1 then slot.op else slot.params[j - 2]
  }

  function BytesOf(slots: seq<Slot>): (bytes: seq<byte>)
    requires Sized(slots)
    ensures |bytes| == RULES_BYTES
  {
    seq(RULES_BYTES, k requires 0 <= k < RULES_BYTES => SlotByte(slots[k / RULE_SLOT_BYTES], k % RULE_SLOT_BYTES))
  }

  lemma BytesOfAt(slots: seq<Slot>, i: nat, j: nat)
    requires Sized(slots) && i < MAX_RULE_SLOTS && j < RULE_SLOT_BYTES
    ensures BytesOf(slots)[24 * i + j] == SlotByte(slots[i], j)
  {
    assert (24 * i + j) / 24 == i && (24 * i + j) % 24 == j;
  }

  lemma SlotsOfBytesOf(slots: seq<Slot>)
    requires Sized(slots)
    ensures SlotsOf(BytesOf(slots)) == slots
  {
    var bytes := BytesOf(slots);
    forall i | 0 <= i < MAX_RULE_SLOTS ensures SlotsOf(bytes)[i] == slots[i] {
      BytesOfAt(slots, i, 0);
      BytesOfAt(slots, i, 1);
      var params := bytes[24 * i + 2..24 * i + 24];
      forall j | 0 <= j < RULE_PARAMS_BYTES ensures params[j] == slots[i].params[j] {
        BytesOfAt(slots, i, j + 2);
      }
      assert params == slots[i].params;
    }
  }

  lemma BytesOfSlotsOf(bytes: seq<byte>)
    requires |bytes| == RULES_BYTES
    ensures BytesOf(SlotsOf(bytes)) == bytes
  {
    var slots := SlotsOf(bytes);
    forall k | 0 <= k < RULES_BYTES ensures BytesOf(slots)[k] == bytes[k] {
      var i, j := k / RULE_SLOT_BYTES, k % RULE_SLOT_BYTES;
      assert k == 24 * i + j && 0 <= i < MAX_RULE_SLOTS;
      if j >= 2 { assert slots[i].params[j - 2] == bytes[24 * i + 2..24 * i + 24][j - 2]; }
    }
  }

  // ─── Parameters of each rule ───────────────────────────────────────────────

  function SourceMask(sources: seq<Source>): byte {
    (if Provider in sources then 1 else 0) + (if Register in sources then 2 else 0)
  }

  function StatusParams(rule: StatusRule): (r: seq<byte>)
    requires ValidStatus(rule)
    ensures |r| == RULE_PARAMS_BYTES
  {
    [SourceMask(rule.sources), rule.minTier]
    + LittleEndian(if rule.maxAge.Some? then rule.maxAge.value else 0, 4)
    + Zeros(16)
  }

  function CodePairs(codes: seq<string>): (r: seq<byte>)
    requires forall i :: 0 <= i < |codes| ==> IsCode(codes[i])
    ensures |r| == 2 * |codes|
  {
    if codes == [] then []
    else
      assert IsCode(codes[0]);
      [codes[0][0] as int, codes[0][1] as int] + CodePairs(codes[1..])
  }

  function JurisdictionParams(codes: seq<string>): (r: seq<byte>)
    requires ValidJurisdictions(codes)
    ensures |r| == RULE_PARAMS_BYTES
  {
    CodePairs(codes) + Zeros(RULE_PARAMS_BYTES - 2 * |codes|)
  }

  function AmountParams(amount: nat, window: Option<nat>): (r: seq<byte>)
    ensures |r| == RULE_PARAMS_BYTES
  {
    LittleEndian(amount, 8) + LittleEndian(if window.Some? then window.value else 0, 4) + Zeros(10)
  }

  /** The slot a policy has for one rule kind, if it has that rule. */
  function RuleOf(policy: Policy, kind: byte): (r: seq<Slot>)
    requires Valid(policy)
    ensures |r| <= 1
    ensures forall s :: s in r ==> s.kind == kind && s.op == 0 && |s.params| == RULE_PARAMS_BYTES
  {
    if kind == KIND_STATUS then [Slot(kind, 0, StatusParams(policy.status))]
    else if kind == KIND_JURISDICTIONS && policy.jurisdictions.Some? then
      [Slot(kind, 0, JurisdictionParams(policy.jurisdictions.value))]
    else if kind == KIND_TRANSFER_LIMIT && policy.transferLimit.Some? then
      [Slot(kind, 0, AmountParams(policy.transferLimit.value, None))]
    else if kind == KIND_PERIOD_LIMIT && policy.periodLimit.Some? then
      [Slot(kind, 0, AmountParams(policy.periodLimit.value.amount, Some(policy.periodLimit.value.windowSeconds)))]
    else []
  }

  /** The rules of the kinds `1..k`, in ascending order of kind. */
  function RulesUpTo(policy: Policy, k: nat): (r: seq<Slot>)
    requires Valid(policy) && k <= 4
    ensures |r| <= k
    ensures forall s :: s in r ==> 1 <= s.kind <= k && s in RuleOf(policy, s.kind)
    ensures forall i, j :: 0 <= i < j < |r| ==> r[i].kind < r[j].kind
  {
    if k == 0 then [] else RulesUpTo(policy, k - 1) + RuleOf(policy, k)
  }

  function Pad(rules: seq<Slot>): (slots: seq<Slot>)
    requires |rules| <= MAX_RULE_SLOTS
    ensures |slots| == MAX_RULE_SLOTS
  {
    rules + seq(MAX_RULE_SLOTS - |rules|, _ => EMPTY_SLOT)
  }

  /** The sixteen slots of a policy: its rules in ascending kind, then empty slots. */
  function Slots(policy: Policy): (slots: seq<Slot>)
    requires Valid(policy)
    ensures Sized(slots)
  {
    var rules := RulesUpTo(policy, 4);
    assert forall i :: 0 <= i < |rules| ==> rules[i] in rules;
    Pad(rules)
  }

  // ─── Encoding ──────────────────────────────────────────────────────────────

  method WriteSlot(out: array<byte>, index: nat, kind: byte, params: seq<byte>)
    requires out.Length == RULES_BYTES && index < MAX_RULE_SLOTS && |params| == RULE_PARAMS_BYTES
    modifies out
    ensures SlotsOf(out[..]) == old(SlotsOf(out[..]))[index := Slot(kind, 0, params)]
  {
    var at := index * RULE_SLOT_BYTES;
    out[at] := kind;
    out[at + 1] := 0;
    for j := 0 to RULE_PARAMS_BYTES
      invariant out[at] == kind && out[at + 1] == 0
      invariant forall i :: 0 <= i < j ==> out[at + 2 + i] == params[i]
      invariant forall k :: 0 <= k < RULES_BYTES && !(at <= k < at + RULE_SLOT_BYTES) ==> out[k] == old(out[k])
    {
      out[at + 2 + j] := params[j];
    }
    ghost var was := old(out[..]);
    forall i | 0 <= i < MAX_RULE_SLOTS
      ensures SlotsOf(out[..])[i] == if i == index then Slot(kind, 0, params) else SlotsOf(was)[i]
    {
      if i == index {
        assert out[..][at + 2..at + 24] == params;
      } else {
        assert out[..][24 * i + 2..24 * i + 24] == was[24 * i + 2..24 * i + 24];
      }
    }
  }

  method BuildJurisdictionParams(codes: seq<string>) returns (params: array<byte>)
    requires ValidJurisdictions(codes)
    ensures fresh(params) && params[..] == JurisdictionParams(codes)
  {
    params := new byte[RULE_PARAMS_BYTES](_ => 0);
    for i := 0 to |codes|
      invariant params.Length == RULE_PARAMS_BYTES
      invariant params[..2 * i] == CodePairs(codes[..i])
      invariant forall k :: 2 * i <= k < RULE_PARAMS_BYTES ==> params[k] == 0
    {
      params[2 * i] := codes[i][0] as int;
      params[2 * i + 1] := codes[i][1] as int;
      CodePairsNext(codes, i, i + 1);
      assert params[..2 * (i + 1)] == params[..2 * i] + [params[2 * i], params[2 * i + 1]];
    }
    assert codes[..|codes|] == codes;
    assert params[..] == params[..2 * |codes|] + params[2 * |codes|..];
  }

  lemma CodePairsNext(codes: seq<string>, i: nat, next: nat)
    requires next == i + 1 <= |codes| && forall k :: 0 <= k < |codes| ==> IsCode(codes[k])
    ensures CodePairs(codes[..next]) == CodePairs(codes[..i]) + [codes[i][0] as int, codes[i][1] as int]
  {
    NextPrefix(codes, i, next);
    CodePairsAppend(codes[..i], codes[i]);
  }

  lemma {:induction false} CodePairsAppend(codes: seq<string>, code: string)
    requires forall i :: 0 <= i < |codes| ==> IsCode(codes[i])
    requires IsCode(code)
    ensures CodePairs(codes + [code]) == CodePairs(codes) + [code[0] as int, code[1] as int]
  {
    if codes != [] {
      CodePairsAppend(codes[1..], code);
      assert (codes + [code])[1..] == codes[1..] + [code];
    }
  }

  /** The bytes that name a policy, or none for a policy outside the model. */
  function Encode(policy: Policy): Option<seq<byte>> {
    if Valid(policy) then
      NormaliseValid(policy);
      Some(BytesOf(Slots(Normalise(policy))))
    else None
  }

  lemma PadNext(rules: seq<Slot>, slot: Slot)
    requires |rules| < MAX_RULE_SLOTS
    ensures Pad(rules)[|rules| := slot] == Pad(rules + [slot])
  {
  }

  /** The parameters a policy writes for one kind, or none if it has no such rule. */
  method BuildParams(checked: Policy, kind: byte) returns (r: Option<seq<byte>>)
    requires Valid(checked)
    ensures RuleOf(checked, kind) == if r.Some? then [Slot(kind, 0, r.value)] else []
    ensures r.Some? ==> |r.value| == RULE_PARAMS_BYTES
  {
    r := None;
    if kind == KIND_STATUS {
      r := Some(StatusParams(checked.status));
    } else if kind == KIND_JURISDICTIONS && checked.jurisdictions.Some? {
      var params := BuildJurisdictionParams(checked.jurisdictions.value);
      r := Some(params[..]);
    } else if kind == KIND_TRANSFER_LIMIT && checked.transferLimit.Some? {
      r := Some(AmountParams(checked.transferLimit.value, None));
    } else if kind == KIND_PERIOD_LIMIT && checked.periodLimit.Some? {
      var limit := checked.periodLimit.value;
      r := Some(AmountParams(limit.amount, Some(limit.windowSeconds)));
    }
  }

  lemma BlankIsEmpty(bytes: seq<byte>)
    requires |bytes| == RULES_BYTES && forall k :: 0 <= k < RULES_BYTES ==> bytes[k] == 0
    ensures SlotsOf(bytes) == Pad([])
  {
    forall i | 0 <= i < MAX_RULE_SLOTS ensures SlotsOf(bytes)[i] == EMPTY_SLOT {
      assert bytes[24 * i + 2..24 * i + 24] == Zeros(RULE_PARAMS_BYTES);
    }
  }

  /** The rules of the kinds up to `k` are written, and `index` is the next slot. */
  ghost predicate Written(bytes: seq<byte>, index: nat, checked: Policy, k: nat)
    requires Valid(checked) && k <= 4 && |bytes| == RULES_BYTES
  {
    index == |RulesUpTo(checked, k)| && SlotsOf(bytes) == Pad(RulesUpTo(checked, k))
  }

  lemma WrittenNext(before: seq<byte>, after: seq<byte>, at: nat, index: nat, checked: Policy, k: nat, kind: byte,
                    params: Option<seq<byte>>)
    requires Valid(checked) && k < 4 && kind == k + 1 && |before| == |after| == RULES_BYTES
    requires Written(before, at, checked, k)
    requires RuleOf(checked, kind) == if params.Some? then [Slot(kind, 0, params.value)] else []
    requires
      if params.Some? then index == at + 1 && SlotsOf(after) == SlotsOf(before)[at := Slot(kind, 0, params.value)]
      else index == at && after == before
    ensures Written(after, index, checked, kind)
  {
    var rules := RulesUpTo(checked, k);
    assert RulesUpTo(checked, kind) == rules + RuleOf(checked, kind);
    if params.Some? {
      PadNext(rules, Slot(kind, 0, params.value));
    } else {
      assert rules + [] == rules;
    }
  }

  lemma WrittenAll(rules: Policy, bytes: seq<byte>, index: nat)
    requires Valid(rules) && Valid(Normalise(rules)) && |bytes| == RULES_BYTES && Written(bytes, index, Normalise(rules), 4)
    ensures Encode(rules) == Some(bytes)
  {
    BytesOfSlotsOf(bytes);
  }

  /** Writes the rule of one kind to the next slot, if the policy has it. */
  method WriteRule(out: array<byte>, index: nat, checked: Policy, kind: byte) returns (next: nat)
    requires out.Length == RULES_BYTES && Valid(checked) && 1 <= kind <= 4 && Written(out[..], index, checked, kind - 1)
    modifies out
    ensures Written(out[..], next, checked, kind)
  {
    var params := BuildParams(checked, kind);
    ghost var before := out[..];
    next := index;
    if params.Some? {
      WriteSlot(out, index, kind, params.value);
      next := index + 1;
    }
    WrittenNext(before, out[..], index, next, checked, kind - 1, kind, params);
  }

  /** Policy to the bytes of the `rules` field; a policy outside the model is refused. */
  method EncodeRules(rules: Policy) returns (r: Option<array<byte>>)
    ensures r.Some? <==> Valid(rules)
    ensures r.Some? ==> fresh(r.value) && Encode(rules) == Some(r.value[..])
  {
    var parsed := Parse(rules);
    if parsed == None { return None; }
    NormaliseValid(rules);
    var checked := parsed.value;
    var out := new byte[RULES_BYTES](_ => 0);
    var index := 0;
    BlankIsEmpty(out[..]);
    for k := 0 to 4
      invariant out.Length == RULES_BYTES && Written(out[..], index, checked, k)
    {
      index := WriteRule(out, index, checked, k + 1);
    }
    WrittenAll(rules, out[..], index);
    r := Some(out);
  }
}
