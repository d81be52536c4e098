/** What one transaction says happened, as the verifier reads it (tools/verify-journal/src/decode.ts). */
module Transactions {
  import opened Common
  import opened Ordering
  import opened LittleEndianBytes
  import opened PolicyModel
  import opened PolicyLayout
  import opened PolicyDecoding
  import opened Refusals
  import opened TransferRules
  import opened ProgramLayout
  import opened ProgramRules
  import opened RefusedRules
  import opened Events

  // ─── The node's answer ─────────────────────────────────────────────────────

  /** An instruction by indices into the message's keys. */
  datatype Compiled = Compiled(program: nat, accounts: seq<nat>, data: seq<byte>)

  datatype InnerGroup = InnerGroup(index: nat, instructions: seq<Compiled>)

  /** The failing outer instruction, -1 when none ran, and its custom error. */
  datatype Failed = Failed(outer: int, custom: Option<int>)

  datatype Balance = Balance(account: nat, owner: Option<string>)

  /** `keys` are all keys an instruction may index, in the order of their indices. */
  datatype Response = Response(
    slot: nat, blockTime: Option<int>, keys: seq<string>, instructions: seq<Compiled>, inner: seq<InnerGroup>,
    balances: seq<Balance>, failed: Option<Failed>)

  // ─── Flattened ─────────────────────────────────────────────────────────────

  datatype Instruction = Instruction(programId: string, accounts: seq<string>, data: seq<byte>, outer: nat)

  /** Why a transaction could not be read. */
  datatype Unreadable =
    | KeyOutOfRange
    | MissingAccounts
    | StateUnavailable
    | UnknownInstruction
    | ArgumentsUnread
    | NotAnEvent

  predicate KeysKnown(keys: seq<string>, ix: Compiled) {
    ix.program < |keys| && forall i :: 0 <= i < |ix.accounts| ==> ix.accounts[i] < |keys|
  }

  predicate AllKnown(keys: seq<string>, ixs: seq<Compiled>) {
    forall i :: 0 <= i < |ixs| ==> KeysKnown(keys, ixs[i])
  }

  function Resolve(keys: seq<string>, ix: Compiled, outer: nat): Instruction
    requires KeysKnown(keys, ix)
  {
    Instruction(
      keys[ix.program],
      seq(|ix.accounts|, i requires 0 <= i < |ix.accounts| => keys[ix.accounts[i]]),
      ix.data, outer)
  }

  function ResolveAll(keys: seq<string>, ixs: seq<Compiled>, outer: nat): (r: seq<Instruction>)
    requires AllKnown(keys, ixs)
    ensures |r| == |ixs| && forall i :: 0 <= i < |r| ==> r[i].outer == outer
  {
    seq(|ixs|, i requires 0 <= i < |ixs| => Resolve(keys, ixs[i], outer))
  }

  predicate Resolvable(response: Response) {
    && AllKnown(response.keys, response.instructions)
    && (forall g :: 0 <= g < |response.inner| ==> AllKnown(response.keys, response.inner[g].instructions))
    && (forall i :: 0 <= i < |response.balances| && response.balances[i].owner.Some? ==>
          response.balances[i].account < |response.keys|)
  }

  /** The last group of this index holds these instructions, or there is none and they are none. */
  ghost predicate LastGroupHolds(groups: seq<InnerGroup>, outer: nat, invoked: seq<Compiled>) {
    || (invoked == [] && forall g :: 0 <= g < |groups| ==> groups[g].index != outer)
    || exists g ::
         && 0 <= g < |groups| && groups[g].index == outer && groups[g].instructions == invoked
         && forall h :: g < h < |groups| ==> groups[h].index != outer
  }

  /** What the outer instruction invoked; the last group of its index stands. */
  function InvokedBy(groups: seq<InnerGroup>, outer: nat): (r: seq<Compiled>)
    ensures r == [] || exists g :: 0 <= g < |groups| && groups[g].instructions == r
  {
    if groups == [] then []
    else if groups[|groups| - 1].index == outer then groups[|groups| - 1].instructions
    else
      InvokedBy(groups[..|groups| - 1], outer)
  }

  lemma {:induction false} InvokedByLast(groups: seq<InnerGroup>, outer: nat)
    ensures LastGroupHolds(groups, outer, InvokedBy(groups, outer))
  {
    if groups != [] {
      var before := groups[..|groups| - 1];
      assert forall g :: 0 <= g < |before| ==> before[g] == groups[g];
      InvokedByLast(before, outer);
    }
  }

  /** An outer instruction and what it invoked. */
  function Block(response: Response, outer: nat, invoked: seq<Compiled>): seq<Instruction>
    requires Resolvable(response) && outer < |response.instructions| && AllKnown(response.keys, invoked)
  {
    [Resolve(response.keys, response.instructions[outer], outer)] + ResolveAll(response.keys, invoked, outer)
  }

  /** The first outer instructions in execution order, the invoked ones right behind the one that invoked them. */
  function Executed(response: Response, upTo: nat): seq<Instruction>
    requires Resolvable(response) && upTo <= |response.instructions|
  {
    if upTo == 0 then []
    else
      var outer := upTo - 1;
      Executed(response, outer) + Block(response, outer, InvokedBy(response.inner, outer))
  }

  /** The instruction, its indices read as the keys they stand for. */
  ghost predicate Says(keys: seq<string>, compiled: Compiled, outer: nat, ix: Instruction)
    requires KeysKnown(keys, compiled)
  {
    && ix.programId == keys[compiled.program] && ix.data == compiled.data && ix.outer == outer
    && |ix.accounts| == |compiled.accounts|
    && forall i :: 0 <= i < |ix.accounts| ==> ix.accounts[i] == keys[compiled.accounts[i]]
  }

  /** The outer instruction, and right behind it, in their order, the instructions of the last group of its index. */
  ghost predicate IsBlock(response: Response, outer: nat, block: seq<Instruction>)
    requires Resolvable(response) && outer < |response.instructions|
  {
    exists invoked ::
      && LastGroupHolds(response.inner, outer, invoked) && AllKnown(response.keys, invoked)
      && |block| == 1 + |invoked| && Says(response.keys, response.instructions[outer], outer, block[0])
      && forall i :: 0 <= i < |invoked| ==> Says(response.keys, invoked[i], outer, block[i + 1])
  }

  ghost predicate IsBlockBetween(response: Response, outer: nat, ixs: seq<Instruction>, from: nat, to: nat)
    requires Resolvable(response) && outer < |response.instructions|
  {
    from <= to <= |ixs| && IsBlock(response, outer, ixs[from..to])
  }

  ghost predicate CutAt(response: Response, ixs: seq<Instruction>, cuts: seq<nat>, outer: nat)
    requires Resolvable(response) && outer < |response.instructions| && outer + 1 < |cuts|
  {
    IsBlockBetween(response, outer, ixs, cuts[outer], cuts[outer + 1])
  }

  /** The blocks of the outer instructions one after the other, cut at these places. */
  ghost predicate InBlocks(response: Response, ixs: seq<Instruction>, cuts: seq<nat>)
    requires Resolvable(response)
  {
    && 0 < |cuts| <= |response.instructions| + 1 && cuts[0] == 0 && cuts[|cuts| - 1] == |ixs|
    && forall outer :: 0 <= outer < |cuts| - 1 ==> CutAt(response, ixs, cuts, outer)
  }

  /** All of them, each outer instruction before what it invoked. */
  ghost predicate RunsInOrder(response: Response, ixs: seq<Instruction>)
    requires Resolvable(response)
  {
    exists cuts :: |cuts| == |response.instructions| + 1 && InBlocks(response, ixs, cuts)
  }

  lemma BlockIsBlock(response: Response, outer: nat)
    requires Resolvable(response) && outer < |response.instructions|
    ensures AllKnown(response.keys, InvokedBy(response.inner, outer))
    ensures IsBlock(response, outer, Block(response, outer, InvokedBy(response.inner, outer)))
  {
    InvokedByLast(response.inner, outer);
  }

  lemma BlockStays(response: Response, outer: nat, ixs: seq<Instruction>, more: seq<Instruction>, from: nat, to: nat)
    requires Resolvable(response) && outer < |response.instructions| && IsBlockBetween(response, outer, ixs, from, to)
    ensures IsBlockBetween(response, outer, ixs + more, from, to)
  {
    assert (ixs + more)[from..to] == ixs[from..to];
  }

  lemma BlockAppended(response: Response, outer: nat, ixs: seq<Instruction>, block: seq<Instruction>)
    requires Resolvable(response) && outer < |response.instructions| && IsBlock(response, outer, block)
    ensures IsBlockBetween(response, outer, ixs + block, |ixs|, |ixs + block|)
  {
    TailOfJoined(ixs, block);
  }

  lemma TailOfJoined(ixs: seq<Instruction>, block: seq<Instruction>)
    ensures (ixs + block)[|ixs|..|ixs + block|] == block
  {
    var all := ixs + block;
    assert |all[|ixs|..|all|]| == |block|;
    assert forall k :: 0 <= k < |block| ==> all[|ixs|..|all|][k] == block[k];
  }

  lemma OneMoreBlock(response: Response, outer: nat, ixs: seq<Instruction>, cuts: seq<nat>, block: seq<Instruction>,
                     more: seq<nat>)
    requires Resolvable(response) && outer < |response.instructions|
    requires |cuts| == outer + 1 && InBlocks(response, ixs, cuts) && more == cuts + [|ixs + block|]
    requires CutAt(response, ixs + block, more, outer)
    ensures InBlocks(response, ixs + block, more)
  {
    forall k | 0 <= k < outer ensures CutAt(response, ixs + block, more, k) {
      CutStays(response, ixs, cuts, block, more, k);
    }
  }

  lemma BlockAdded(response: Response, outer: nat, ixs: seq<Instruction>, cuts: seq<nat>, block: seq<Instruction>,
                   more: seq<nat>)
    requires Resolvable(response) && outer < |response.instructions| && IsBlock(response, outer, block)
    requires |cuts| == outer + 1 && InBlocks(response, ixs, cuts) && more == cuts + [|ixs + block|]
    ensures InBlocks(response, ixs + block, more)
  {
    CutLast(response, outer, ixs, block, more);
    OneMoreBlock(response, outer, ixs, cuts, block, more);
  }

  lemma CutLast(response: Response, outer: nat, ixs: seq<Instruction>, block: seq<Instruction>, more: seq<nat>)
    requires Resolvable(response) && outer < |response.instructions| && IsBlock(response, outer, block)
    requires |more| == outer + 2 && more[outer] == |ixs| && more[outer + 1] == |ixs + block|
    ensures CutAt(response, ixs + block, more, outer)
  {
    BlockAppended(response, outer, ixs, block);
  }

  lemma CutStays(response: Response, ixs: seq<Instruction>, cuts: seq<nat>, block: seq<Instruction>, more: seq<nat>, k: nat)
    requires Resolvable(response) && k < |response.instructions| && k + 1 < |cuts| && cuts <= more
    requires CutAt(response, ixs, cuts, k)
    ensures CutAt(response, ixs + block, more, k)
  {
    assert more[k] == cuts[k] && more[k + 1] == cuts[k + 1];
    BlockStays(response, k, ixs, block, cuts[k], cuts[k + 1]);
  }

  lemma ExecutedNext(response: Response, outer: nat, next: nat, invoked: seq<Compiled>)
    requires Resolvable(response) && next == outer + 1 <= |response.instructions|
    requires invoked == InvokedBy(response.inner, outer)
    ensures AllKnown(response.keys, invoked)
    ensures Executed(response, next) == Executed(response, outer) + Block(response, outer, invoked)
  {
  }

  lemma {:induction false} ExecutedInBlocks(response: Response, upTo: nat) returns (cuts: seq<nat>)
    requires Resolvable(response) && upTo <= |response.instructions|
    ensures |cuts| == upTo + 1 && InBlocks(response, Executed(response, upTo), cuts)
  {
    if upTo == 0 {
      cuts := [0];
    } else {
      var last := upTo - 1;
      var rest := ExecutedInBlocks(response, last);
      BlockIsBlock(response, last);
      var before, block := Executed(response, last), Block(response, last, InvokedBy(response.inner, last));
      cuts := rest + [|before + block|];
      ExecutedNext(response, last, upTo, InvokedBy(response.inner, last));
      BlockAdded(response, last, before, rest, block, cuts);
    }
  }

  function OwnerAmong(keys: seq<string>, balances: seq<Balance>, account: string): Option<string>
    requires forall i :: 0 <= i < |balances| && balances[i].owner.Some? ==> balances[i].account < |keys|
  {
    if balances == [] then None
    else
      var last := balances[|balances| - 1];
      if last.owner.Some? && keys[last.account] == account then last.owner
      else OwnerAmong(keys, balances[..|balances| - 1], account)
  }

  // ─── What the verifier asks besides ────────────────────────────────────────

  type RuleBytes = b: seq<byte> | |b| == RULES_BYTES witness Zeros(RULES_BYTES)

  /** An event without its envelope. */
  datatype EventDraft = EventDraft(mint: string, body: Body)

  /** An instruction of the program by its interface: none it knows, part of a transfer, one with events, one without. */
  datatype Decoded =
    | NoInstruction
    | PartOfTransfer
    | WithEvents(drafts: Result<seq<EventDraft>, Unreadable>)
    | WithoutEvents(name: string)

  datatype Oracle = Oracle(
    decode: Instruction -> Decoded,
    ownerOf: string -> Option<string>,
    rulesAt: string -> Option<RuleBytes>,
    wellFormed: Event -> bool)

  // ─── Transfers ─────────────────────────────────────────────────────────────

  const TOKEN_2022 := "TokenzQdBNbLqP5VEhdkAS6EPFLC1PHnBqCXEpPxuEb"

  /** `TransferChecked` with our program among its accounts: tag 12, an amount and the decimals. */
  predicate IsHookedTransfer(ix: Instruction, programId: string) {
    ix.programId == TOKEN_2022 && |ix.data| == 10 && ix.data[0] == 12 && programId in ix.accounts
  }

  predicate Names(response: Response, i: nat, account: string)
    requires Resolvable(response) && i < |response.balances|
  {
    response.balances[i].owner.Some? && response.keys[response.balances[i].account] == account
  }

  /** The owner in the last balance that names the account, or the one asked for when none does. */
  ghost predicate IsOwner(response: Response, oracle: Oracle, account: string, owner: string)
    requires Resolvable(response)
  {
    var n := |response.balances|;
    || ((forall i :: 0 <= i < n ==> !Names(response, i, account)) && oracle.ownerOf(account) == Some(owner))
    || exists i ::
         && 0 <= i < n && Names(response, i, account) && response.balances[i].owner == Some(owner)
         && forall j :: i < j < n ==> !Names(response, j, account)
  }

  /** What a transfer's accounts and data say: from the first account to the third, each with its owner, and the amount behind the tag. */
  ghost predicate TellsParties(response: Response, oracle: Oracle, ix: Instruction, p: Parties)
    requires Resolvable(response)
  {
    && |ix.accounts| >= 3 && |ix.data| == 10
    && p.source == ix.accounts[0] && IsOwner(response, oracle, ix.accounts[0], p.sender)
    && p.destination == ix.accounts[2] && IsOwner(response, oracle, ix.accounts[2], p.recipient)
    && LittleEndian(p.amount, 8) == ix.data[1..9]
  }

  function OwnerOf(response: Response, oracle: Oracle, account: string): Option<string>
    requires Resolvable(response)
  {
    var known := OwnerAmong(response.keys, response.balances, account);
    if known.Some? then known else oracle.ownerOf(account)
  }

  function PartiesOf(response: Response, oracle: Oracle, ix: Instruction): Result<Parties, Unreadable>
    requires Resolvable(response) && |ix.data| == 10
  {
    if |ix.accounts| < 3 then Err(MissingAccounts)
    else
      var sender := OwnerOf(response, oracle, ix.accounts[0]);
      var recipient := OwnerOf(response, oracle, ix.accounts[2]);
      if sender.None? || recipient.None? then Err(StateUnavailable)
      else
        Ok(Parties(ix.accounts[0], ix.accounts[2], sender.value, recipient.value, FromLittleEndian(ix.data[1..9])))
  }

  const ANCHOR_ERROR_OFFSET := 6000
  const HOOK_CODES := 13
  const POLICY_POSITION_IN_TRANSFER := 5

  /** The code a refusal left in the error number: none that is a refusal, or one, perhaps newer than this table. */
  function CodeOf(custom: int): Option<Option<RefusalCode>> {
    if custom >= ANCHOR_ERROR_OFFSET + HOOK_CODES then Some(None)
    else if custom >= ANCHOR_ERROR_OFFSET then Some(Some(REFUSAL_CODES[custom - ANCHOR_ERROR_OFFSET]))
    else if custom == 17 then Some(Some(AccountFrozen))
    else if custom == 67 then Some(Some(TransfersPaused))
    else None
  }

  function RuleSlotOf(oracle: Oracle, ix: Instruction, code: Option<RefusalCode>): Option<nat> {
    if |ix.accounts| <= POLICY_POSITION_IN_TRANSFER || code.None? then None
    else
      var rules := oracle.rulesAt(ix.accounts[POLICY_POSITION_IN_TRANSFER]);
      var kind := KindOf(code.value);
      if rules.None? || kind.None? then None else SlotOfKind(SlotsOf(rules.value), kind.value)
  }

  function RefusalDrafts(response: Response, oracle: Oracle, ix: Instruction, custom: int): Result<seq<EventDraft>, Unreadable>
    requires Resolvable(response) && |ix.data| == 10
  {
    var code := CodeOf(custom);
    if code.None? then Ok([])
    else
      match PartiesOf(response, oracle, ix)
      case Err(e) => Err(e)
      case Ok(parties) =>
        Ok([EventDraft(ix.accounts[1], Refusal(parties, code.value, Some(custom), RuleSlotOf(oracle, ix, code.value)))])
  }

  // ─── One transaction ───────────────────────────────────────────────────────

  datatype Unjournalled = Unjournalled(signature: string, slot: nat, instruction: string, accounts: seq<string>)

  /** What an instruction that ran leaves in the journal. */
  function DraftsOf(response: Response, oracle: Oracle, programId: string, ix: Instruction): Result<seq<EventDraft>, Unreadable>
    requires Resolvable(response)
  {
    if IsHookedTransfer(ix, programId) then
      match PartiesOf(response, oracle, ix)
      case Err(e) => Err(e)
      case Ok(parties) => Ok([EventDraft(ix.accounts[1], Transfer(parties))])
    else if ix.programId != programId then Ok([])
    else
      match oracle.decode(ix)
      case NoInstruction => Err(UnknownInstruction)
      case PartOfTransfer => Ok([])
      case WithEvents(drafts) => drafts
      case WithoutEvents(_) => Ok([])
  }

  function OutsideJournal(response: Response, oracle: Oracle, programId: string, signature: string, ix: Instruction): seq<Unjournalled> {
    if IsHookedTransfer(ix, programId) || ix.programId != programId || !oracle.decode(ix).WithoutEvents? then []
    else [Unjournalled(signature, response.slot, oracle.decode(ix).name, ix.accounts)]
  }

  datatype Found = Found(drafts: seq<EventDraft>, unjournalled: seq<Unjournalled>)

  /** What these instructions leave, in order, unless one of them cannot be read. */
  function FoundIn(response: Response, oracle: Oracle, programId: string, signature: string, ixs: seq<Instruction>)
    : Result<Found, Unreadable>
    requires Resolvable(response)
  {
    if ixs == [] then Ok(Found([], []))
    else
      var ix := ixs[|ixs| - 1];
      match FoundIn(response, oracle, programId, signature, ixs[..|ixs| - 1])
      case Err(e) => Err(e)
      case Ok(before) =>
        match DraftsOf(response, oracle, programId, ix)
        case Err(e) => Err(e)
        case Ok(drafts) =>
          Ok(Found(before.drafts + drafts,
                   before.unjournalled + OutsideJournal(response, oracle, programId, signature, ix)))
  }

  /** The last hooked transfer of the failing outer instruction. */
  function RefusedTransfer(ixs: seq<Instruction>, outer: int, programId: string): (r: Option<Instruction>)
    ensures r.Some? ==> r.value in ixs && r.value.outer == outer && IsHookedTransfer(r.value, programId)
    ensures r.None? ==> forall ix :: ix in ixs && ix.outer == outer ==> !IsHookedTransfer(ix, programId)
  {
    if ixs == [] then None
    else
      var last := ixs[|ixs| - 1];
      assert ixs == ixs[..|ixs| - 1] + [last];
      if last.outer == outer && IsHookedTransfer(last, programId) then Some(last)
      else RefusedTransfer(ixs[..|ixs| - 1], outer, programId)
  }

  function EventAt(signature: string, response: Response, drafts: seq<EventDraft>, i: nat): Event
    requires i < |drafts|
  {
    Event(signature, response.slot, response.blockTime, i, drafts[i].mint, drafts[i].body)
  }

  function EventsFrom(signature: string, response: Response, drafts: seq<EventDraft>): (r: seq<Event>)
    ensures |r| == |drafts|
  {
    seq(|drafts|, i requires 0 <= i < |drafts| => EventAt(signature, response, drafts, i))
  }

  datatype ChainReading = ChainReading(events: seq<Event>, unjournalled: seq<Unjournalled>)

  function FoundInTransaction(signature: string, response: Response, programId: string, oracle: Oracle): Result<Found, Unreadable>
    requires Resolvable(response)
  {
    var ixs := Executed(response, |response.instructions|);
    match response.failed
    case None => FoundIn(response, oracle, programId, signature, ixs)
    case Some(Failed(outer, custom)) =>
      var refused := RefusedTransfer(ixs, outer, programId);
      if refused.None? || custom.None? then Ok(Found([], []))
      else
        match RefusalDrafts(response, oracle, refused.value, custom.value)
        case Err(e) => Err(e)
        case Ok(drafts) => Ok(Found(drafts, []))
  }

  function ReadTransaction(signature: string, response: Response, programId: string, oracle: Oracle)
    : Result<ChainReading, Unreadable>
  {
    if !Resolvable(response) then Err(KeyOutOfRange)
    else
      match FoundInTransaction(signature, response, programId, oracle)
      case Err(e) => Err(e)
      case Ok(found) =>
        var events := EventsFrom(signature, response, found.drafts);
        if forall i :: 0 <= i < |events| ==> oracle.wellFormed(events[i]) then Ok(ChainReading(events, found.unjournalled))
        else Err(NotAnEvent)
  }

  function Lookup(inner: map<nat, seq<Compiled>>, outer: nat): seq<Compiled> {
    if outer in inner then inner[outer] else []
  }

  /** The map holds for every outer instruction what it invoked. */
  ghost predicate IsGrouped(inner: map<nat, seq<Compiled>>, groups: seq<InnerGroup>) {
    forall outer: nat :: Lookup(inner, outer) == InvokedBy(groups, outer)
  }

  method GroupInner(groups: seq<InnerGroup>) returns (inner: map<nat, seq<Compiled>>)
    ensures IsGrouped(inner, groups)
  {
    inner := map[];
    for g := 0 to |groups|
      invariant IsGrouped(inner, groups[..g])
    {
      assert groups[..g + 1][..g] == groups[..g];
      inner := inner[groups[g].index := groups[g].instructions];
    }
    assert groups[..|groups|] == groups;
  }

  /** The outer instructions, each followed by the ones it invoked. */
  method Flatten(response: Response) returns (ixs: seq<Instruction>)
    requires Resolvable(response)
    ensures ixs == Executed(response, |response.instructions|)
  {
    var inner := GroupInner(response.inner);
    ixs := [];
    for outer := 0 to |response.instructions|
      invariant ixs == Executed(response, outer)
    {
      BlockNext(response, inner, outer, outer + 1);
      ixs := ixs + BlockAt(response, inner, outer);
    }
  }

  lemma InvokedKnown(response: Response, outer: nat)
    requires Resolvable(response)
    ensures AllKnown(response.keys, InvokedBy(response.inner, outer))
  {
  }

  function BlockAt(response: Response, inner: map<nat, seq<Compiled>>, outer: nat): seq<Instruction>
    requires Resolvable(response) && outer < |response.instructions| && IsGrouped(inner, response.inner)
  {
    InvokedKnown(response, outer);
    Block(response, outer, Lookup(inner, outer))
  }

  lemma BlockNext(response: Response, inner: map<nat, seq<Compiled>>, outer: nat, next: nat)
    requires Resolvable(response) && next == outer + 1 <= |response.instructions| && IsGrouped(inner, response.inner)
    ensures Executed(response, next) == Executed(response, outer) + BlockAt(response, inner, outer)
  {
    ExecutedNext(response, outer, next, Lookup(inner, outer));
  }

  /** Walks the instructions of a transaction that succeeded. */
  method Walk(response: Response, oracle: Oracle, programId: string, signature: string, ixs: seq<Instruction>)
    returns (r: Result<Found, Unreadable>)
    requires Resolvable(response)
    ensures r == FoundIn(response, oracle, programId, signature, ixs)
  {
    var drafts, unjournalled := [], [];
    for i := 0 to |ixs|
      invariant FoundIn(response, oracle, programId, signature, ixs[..i]) == Ok(Found(drafts, unjournalled))
    {
      var ix := ixs[i];
      assert ixs[..i + 1][..i] == ixs[..i];
      var here := DraftsOf(response, oracle, programId, ix);
      if here.Err? {
        StopsAt(response, oracle, programId, signature, ixs, i + 1);
        return Err(here.error);
      }
      drafts := drafts + here.value;
      unjournalled := unjournalled + OutsideJournal(response, oracle, programId, signature, ix);
    }
    assert ixs[..|ixs|] == ixs;
    r := Ok(Found(drafts, unjournalled));
  }

  method Read(signature: string, response: Response, programId: string, oracle: Oracle)
    returns (r: Result<ChainReading, Unreadable>)
    ensures r == ReadTransaction(signature, response, programId, oracle)
  {
    if !Resolvable(response) { return Err(KeyOutOfRange); }
    var ixs := Flatten(response);
    var found: Result<Found, Unreadable> := Ok(Found([], []));
    if response.failed.Some? {
      var Failed(outer, custom) := response.failed.value;
      var refused := RefusedTransfer(ixs, outer, programId);
      if refused.Some? && custom.Some? {
        var drafts := RefusalDrafts(response, oracle, refused.value, custom.value);
        found := if drafts.Err? then Err(drafts.error) else Ok(Found(drafts.value, []));
      }
    } else {
      found := Walk(response, oracle, programId, signature, ixs);
    }
    if found.Err? { return Err(found.error); }
    var events := EventsFrom(signature, response, found.value.drafts);
    if forall i :: 0 <= i < |events| ==> oracle.wellFormed(events[i]) {
      r := Ok(ChainReading(events, found.value.unjournalled));
    } else {
      r := Err(NotAnEvent);
    }
  }

  lemma {:induction false} StopsAt(response: Response, oracle: Oracle, programId: string, signature: string,
                                   ixs: seq<Instruction>, n: nat)
    requires Resolvable(response) && n <= |ixs|
    requires FoundIn(response, oracle, programId, signature, ixs[..n]).Err?
    ensures FoundIn(response, oracle, programId, signature, ixs) == FoundIn(response, oracle, programId, signature, ixs[..n])
    decreases |ixs|
  {
    if n == |ixs| {
      assert ixs[..n] == ixs;
    } else {
      assert ixs[..|ixs| - 1][..n] == ixs[..n];
      StopsAt(response, oracle, programId, signature, ixs[..|ixs| - 1], n);
    }
  }

  // ─── What a reading promises ───────────────────────────────────────────────

  lemma {:induction false} OwnerIsLast(response: Response, n: nat, account: string)
    requires Resolvable(response) && n <= |response.balances|
    ensures
      match OwnerAmong(response.keys, response.balances[..n], account)
      case None => forall i :: 0 <= i < n ==> !Names(response, i, account)
      case Some(owner) =>
        exists i :: && 0 <= i < n && Names(response, i, account) && response.balances[i].owner == Some(owner)
                    && forall j :: i < j < n ==> !Names(response, j, account)
  {
    if n > 0 {
      assert response.balances[..n][..n - 1] == response.balances[..n - 1];
      OwnerIsLast(response, n - 1, account);
    }
  }

  lemma OwnerIsOwner(response: Response, oracle: Oracle, account: string)
    requires Resolvable(response) && OwnerOf(response, oracle, account).Some?
    ensures IsOwner(response, oracle, account, OwnerOf(response, oracle, account).value)
  {
    OwnerIsLast(response, |response.balances|, account);
    assert response.balances[..|response.balances|] == response.balances;
  }

  lemma PartiesTold(response: Response, oracle: Oracle, ix: Instruction)
    requires Resolvable(response) && |ix.data| == 10
    ensures PartiesOf(response, oracle, ix).Ok? ==>
              TellsParties(response, oracle, ix, PartiesOf(response, oracle, ix).value)
  {
    if PartiesOf(response, oracle, ix).Ok? {
      OwnerIsOwner(response, oracle, ix.accounts[0]);
      OwnerIsOwner(response, oracle, ix.accounts[2]);
      FromLittleEndianRoundTrip(ix.data[1..9]);
    }
  }

  /** The events of one transaction, numbered from zero. */
  ghost predicate Numbered(signature: string, slot: nat, events: seq<Event>) {
    forall i :: 0 <= i < |events| ==>
      events[i].signature == signature && events[i].slot == slot && events[i].eventIndex == i
  }

  /** Whatever happened in it, a transaction's events carry its signature and slot and count up from zero across all its mints. */
  lemma ReadingIsNumbered(signature: string, response: Response, programId: string, oracle: Oracle)
    requires ReadTransaction(signature, response, programId, oracle).Ok?
    ensures Numbered(signature, response.slot, ReadTransaction(signature, response, programId, oracle).value.events)
  {
  }

  /** A hooked transfer of this outer instruction, and the last one. */
  ghost predicate IsLastHooked(ixs: seq<Instruction>, outer: int, programId: string, k: nat) {
    && k < |ixs| && ixs[k].outer == outer && IsHookedTransfer(ixs[k], programId)
    && forall j :: k < j < |ixs| ==> ixs[j].outer != outer || !IsHookedTransfer(ixs[j], programId)
  }

  /** The last instruction is no such transfer, so the last one is where it was without it. */
  lemma LastIsBefore(ixs: seq<Instruction>, before: seq<Instruction>, ix: Instruction, outer: int, programId: string, k: nat)
    requires ixs == before + [ix] && (ix.outer != outer || !IsHookedTransfer(ix, programId))
    ensures IsLastHooked(ixs, outer, programId, k) <==> IsLastHooked(before, outer, programId, k)
  {
    assert forall j :: 0 <= j < |before| ==> ixs[j] == before[j];
    assert ixs[|before|] == ix;
  }

  ghost predicate LastHookedIs(ixs: seq<Instruction>, outer: int, programId: string, refused: Option<Instruction>) {
    match refused
    case None => forall k: nat :: !IsLastHooked(ixs, outer, programId, k)
    case Some(ix) => exists k: nat :: IsLastHooked(ixs, outer, programId, k) && ixs[k] == ix
  }

  lemma LastIsLater(ixs: seq<Instruction>, before: seq<Instruction>, ix: Instruction, outer: int, programId: string,
                    refused: Option<Instruction>)
    requires ixs == before + [ix] && (ix.outer != outer || !IsHookedTransfer(ix, programId))
    requires LastHookedIs(before, outer, programId, refused)
    ensures LastHookedIs(ixs, outer, programId, refused)
  {
    forall k: nat ensures IsLastHooked(ixs, outer, programId, k) <==> IsLastHooked(before, outer, programId, k) {
      LastIsBefore(ixs, before, ix, outer, programId, k);
    }
    if refused.Some? {
      var k: nat :| IsLastHooked(before, outer, programId, k) && before[k] == refused.value;
      assert ixs[k] == before[k];
    }
  }

  lemma {:induction false} RefusedIsLast(ixs: seq<Instruction>, outer: int, programId: string)
    ensures LastHookedIs(ixs, outer, programId, RefusedTransfer(ixs, outer, programId))
  {
    if ixs != [] {
      var n := |ixs| - 1;
      if ixs[n].outer == outer && IsHookedTransfer(ixs[n], programId) {
        assert IsLastHooked(ixs, outer, programId, n);
      } else {
        RefusedIsLast(ixs[..n], outer, programId);
        assert ixs == ixs[..n] + [ixs[n]];
        LastIsLater(ixs, ixs[..n], ixs[n], outer, programId, RefusedTransfer(ixs[..n], outer, programId));
      }
    }
  }

  /** The event is this transfer's refusal: its mint and parties, the code its error number stands for, and the number. */
  ghost predicate TellsRefusal(response: Response, oracle: Oracle, ix: Instruction, custom: int, e: Event)
    requires Resolvable(response)
  {
    && e.body.Refusal? && TellsParties(response, oracle, ix, e.body.parties) && e.mint == ix.accounts[1]
    && CodeOf(custom) == Some(e.body.code) && e.body.programError == Some(custom)
    && e.body.ruleSlot == RuleSlotOf(oracle, ix, e.body.code)
  }

  /** One event, the refusal of the last hooked transfer of the instruction that failed, if there is one and the number is a code; else none. */
  ghost predicate OnlyItsRefusal(response: Response, oracle: Oracle, programId: string, ixs: seq<Instruction>, failed: Failed,
                                 events: seq<Event>)
    requires Resolvable(response)
  {
    if failed.custom.Some? && CodeOf(failed.custom.value).Some?
       && exists k: nat :: IsLastHooked(ixs, failed.outer, programId, k)
    then
      |events| == 1
      && exists k: nat :: IsLastHooked(ixs, failed.outer, programId, k)
                          && TellsRefusal(response, oracle, ixs[k], failed.custom.value, events[0])
    else events == []
  }

  lemma RefusalIsTold(signature: string, response: Response, programId: string, oracle: Oracle, ix: Instruction, custom: int)
    requires Resolvable(response) && |ix.data| == 10 && RefusalDrafts(response, oracle, ix, custom).Ok?
    ensures
      var events := EventsFrom(signature, response, RefusalDrafts(response, oracle, ix, custom).value);
      if CodeOf(custom).Some? then |events| == 1 && TellsRefusal(response, oracle, ix, custom, events[0]) else events == []
  {
    PartiesTold(response, oracle, ix);
  }

  /**
   * Nothing of a failed transaction executed: it leaves at most one event, the refusal of the last
   * hooked transfer of the instruction that failed, with the code its error number stands for.
   */
  lemma FailedLeavesOneRefusal(signature: string, response: Response, programId: string, oracle: Oracle)
    requires response.failed.Some? && ReadTransaction(signature, response, programId, oracle).Ok?
    ensures
      var reading := ReadTransaction(signature, response, programId, oracle).value;
      && reading.unjournalled == []
      && exists ixs :: RunsInOrder(response, ixs)
                       && OnlyItsRefusal(response, oracle, programId, ixs, response.failed.value, reading.events)
  {
    var Failed(outer, custom) := response.failed.value;
    var ixs := Executed(response, |response.instructions|);
    RunsAsExecuted(response);
    RefusedIsLast(ixs, outer, programId);
    var refused := RefusedTransfer(ixs, outer, programId);
    if refused.Some? && custom.Some? {
      RefusalIsTold(signature, response, programId, oracle, refused.value, custom.value);
    }
    assert OnlyItsRefusal(response, oracle, programId, ixs, response.failed.value,
                          ReadTransaction(signature, response, programId, oracle).value.events);
  }

  lemma RunsAsExecuted(response: Response)
    requires Resolvable(response)
    ensures RunsInOrder(response, Executed(response, |response.instructions|))
  {
    var cuts := ExecutedInBlocks(response, |response.instructions|);
  }

  /** What one instruction that ran leaves: a hooked transfer its one event, another instruction of the program what it reads as. */
  ghost predicate Leaves(response: Response, oracle: Oracle, programId: string, signature: string, ix: Instruction, left: Found)
    requires Resolvable(response)
  {
    if IsHookedTransfer(ix, programId) then
      && left.unjournalled == [] && |left.drafts| == 1 && left.drafts[0].body.Transfer?
      && TellsParties(response, oracle, ix, left.drafts[0].body.parties) && left.drafts[0].mint == ix.accounts[1]
    else if ix.programId != programId then left == Found([], [])
    else
      match oracle.decode(ix)
      case NoInstruction => false
      case PartOfTransfer => left == Found([], [])
      case WithEvents(drafts) => drafts == Ok(left.drafts) && left.unjournalled == []
      case WithoutEvents(name) =>
        left.drafts == [] && left.unjournalled == [Unjournalled(signature, response.slot, name, ix.accounts)]
  }

  ghost predicate AllLeave(response: Response, oracle: Oracle, programId: string, signature: string,
                           ixs: seq<Instruction>, left: seq<Found>)
    requires Resolvable(response)
  {
    |left| == |ixs| && forall i :: 0 <= i < |ixs| ==> Leaves(response, oracle, programId, signature, ixs[i], left[i])
  }

  function Joined(left: seq<Found>): Found {
    if left == [] then Found([], [])
    else
      var before, last := Joined(left[..|left| - 1]), left[|left| - 1];
      Found(before.drafts + last.drafts, before.unjournalled + last.unjournalled)
  }

  lemma InstructionLeaves(response: Response, oracle: Oracle, programId: string, signature: string, ix: Instruction)
    requires Resolvable(response) && DraftsOf(response, oracle, programId, ix).Ok?
    ensures Leaves(response, oracle, programId, signature, ix,
                   Found(DraftsOf(response, oracle, programId, ix).value,
                         OutsideJournal(response, oracle, programId, signature, ix)))
  {
    if IsHookedTransfer(ix, programId) { PartiesTold(response, oracle, ix); }
  }

  lemma {:induction false} FoundIsJoined(response: Response, oracle: Oracle, programId: string, signature: string,
                                         ixs: seq<Instruction>) returns (left: seq<Found>)
    requires Resolvable(response) && FoundIn(response, oracle, programId, signature, ixs).Ok?
    ensures AllLeave(response, oracle, programId, signature, ixs, left)
    ensures FoundIn(response, oracle, programId, signature, ixs) == Ok(Joined(left))
  {
    left := [];
    if ixs != [] {
      var n := |ixs| - 1;
      var before := FoundIsJoined(response, oracle, programId, signature, ixs[..n]);
      InstructionLeaves(response, oracle, programId, signature, ixs[n]);
      left := before + [Found(DraftsOf(response, oracle, programId, ixs[n]).value,
                              OutsideJournal(response, oracle, programId, signature, ixs[n]))];
      assert left[..n] == before;
    }
  }

  /** The events are these drafts in their order, under the transaction's signature, slot and time. */
  ghost predicate TellsDrafts(signature: string, response: Response, events: seq<Event>, drafts: seq<EventDraft>) {
    && Numbered(signature, response.slot, events) && |events| == |drafts|
    && forall i :: 0 <= i < |events| ==>
         events[i].blockTime == response.blockTime && events[i].mint == drafts[i].mint && events[i].body == drafts[i].body
  }

  /**
   * The reading of a transaction that succeeded is what its instructions leave, joined in the order
   * they ran: nothing lost, nothing invented, nothing moved.
   */
  lemma ReadingIsWhatRan(signature: string, response: Response, programId: string, oracle: Oracle)
    requires response.failed.None? && ReadTransaction(signature, response, programId, oracle).Ok?
    ensures
      exists ixs, left ::
        && RunsInOrder(response, ixs) && AllLeave(response, oracle, programId, signature, ixs, left)
        && Tells(signature, response, ReadTransaction(signature, response, programId, oracle).value, Joined(left))
  {
    RunsAsExecuted(response);
    var ixs := Executed(response, |response.instructions|);
    var left := FoundIsJoined(response, oracle, programId, signature, ixs);
    ReadingTells(signature, response, programId, oracle, Joined(left));
  }

  /** The reading says what was found. */
  ghost predicate Tells(signature: string, response: Response, reading: ChainReading, found: Found) {
    TellsDrafts(signature, response, reading.events, found.drafts) && reading.unjournalled == found.unjournalled
  }

  lemma ReadingTells(signature: string, response: Response, programId: string, oracle: Oracle, found: Found)
    requires Resolvable(response) && ReadTransaction(signature, response, programId, oracle).Ok?
    requires FoundInTransaction(signature, response, programId, oracle) == Ok(found)
    ensures Tells(signature, response, ReadTransaction(signature, response, programId, oracle).value, found)
  {
  }

  /** What can be read: a transfer with three accounts whose owners are known, an instruction the interface knows. */
  ghost predicate CanBeRead(response: Response, oracle: Oracle, programId: string, ix: Instruction)
    requires Resolvable(response)
  {
    if IsHookedTransfer(ix, programId) then
      |ix.accounts| >= 3 && HasOwner(response, oracle, ix.accounts[0]) && HasOwner(response, oracle, ix.accounts[2])
    else
      ix.programId == programId ==>
        !oracle.decode(ix).NoInstruction? && (oracle.decode(ix).WithEvents? ==> oracle.decode(ix).drafts.Ok?)
  }

  ghost predicate HasOwner(response: Response, oracle: Oracle, account: string)
    requires Resolvable(response)
  {
    exists owner :: IsOwner(response, oracle, account, owner)
  }

  lemma OwnerIfAny(response: Response, oracle: Oracle, account: string)
    requires Resolvable(response)
    ensures HasOwner(response, oracle, account) <==> OwnerOf(response, oracle, account).Some?
  {
    OwnerIsLast(response, |response.balances|, account);
    assert response.balances[..|response.balances|] == response.balances;
    if OwnerOf(response, oracle, account).Some? { OwnerIsOwner(response, oracle, account); }
  }

  lemma ReadExactly(response: Response, oracle: Oracle, programId: string, ix: Instruction)
    requires Resolvable(response)
    ensures DraftsOf(response, oracle, programId, ix).Ok? <==> CanBeRead(response, oracle, programId, ix)
  {
    if IsHookedTransfer(ix, programId) && |ix.accounts| >= 3 {
      OwnerIfAny(response, oracle, ix.accounts[0]);
      OwnerIfAny(response, oracle, ix.accounts[2]);
    }
  }

  /** A transaction that succeeded can be read exactly when each of its instructions can. */
  lemma {:induction false} FoundExactly(response: Response, oracle: Oracle, programId: string, signature: string,
                                        ixs: seq<Instruction>)
    requires Resolvable(response)
    ensures FoundIn(response, oracle, programId, signature, ixs).Ok? <==>
            forall ix :: ix in ixs ==> CanBeRead(response, oracle, programId, ix)
  {
    if ixs != [] {
      var n := |ixs| - 1;
      FoundExactly(response, oracle, programId, signature, ixs[..n]);
      ReadExactly(response, oracle, programId, ixs[n]);
      assert ixs == ixs[..n] + [ixs[n]];
      assert forall ix :: ix in ixs <==> ix in ixs[..n] || ix == ixs[n];
    }
  }

  /** A transfer as the token program takes it, with the accounts of the hook behind the authority. */
  function TransferChecked(source: string, mint: string, destination: string, authority: string, tokenConfig: string,
                           policyConfig: string, more: seq<string>, amount: nat, decimals: byte, outer: nat): Instruction
  {
    Instruction("TokenzQdBNbLqP5VEhdkAS6EPFLC1PHnBqCXEpPxuEb",
                [source, mint, destination, authority, tokenConfig, policyConfig] + more,
                [12] + LittleEndian(amount, 8) + [decimals], outer)
  }

  /** It reads back as the transfer it is when it ran, and as its refusal with the rules of its policy when it failed. */
  lemma TransferReadsBack(response: Response, oracle: Oracle, programId: string, source: string, mint: string,
                          destination: string, authority: string, tokenConfig: string, policyConfig: string,
                          more: seq<string>, amount: nat, decimals: byte, outer: nat, custom: int)
    requires Resolvable(response) && amount < Pow256(8) && programId in more
    requires OwnerOf(response, oracle, source).Some? && OwnerOf(response, oracle, destination).Some?
    ensures
      var ix := TransferChecked(source, mint, destination, authority, tokenConfig, policyConfig, more, amount, decimals, outer);
      var sender, recipient := OwnerOf(response, oracle, source).value, OwnerOf(response, oracle, destination).value;
      var parties := Parties(source, destination, sender, recipient, amount);
      && DraftsOf(response, oracle, programId, ix) == Ok([EventDraft(mint, Transfer(parties))])
      && (CodeOf(custom).Some? && CodeOf(custom).value.Some? && oracle.rulesAt(policyConfig).Some? ==>
            var code := CodeOf(custom).value;
            var slots := SlotsOf(oracle.rulesAt(policyConfig).value);
            var slot := if KindOf(code.value).Some? then SlotOfKind(slots, KindOf(code.value).value) else None;
            RefusalDrafts(response, oracle, ix, custom)
            == Ok([EventDraft(mint, Refusal(parties, code, Some(custom), slot))]))
  {
    var ix := TransferChecked(source, mint, destination, authority, tokenConfig, policyConfig, more, amount, decimals, outer);
    var known := [source, mint, destination, authority, tokenConfig, policyConfig];
    assert ix.accounts[..6] == known && ix.accounts[6..] == more;
    assert programId in ix.accounts[6..];
    assert ix.data[1..9] == LittleEndian(amount, 8);
    LittleEndianRoundTrip(amount, 8);
  }

  /** An error number is a code of the hook by its place in the table, one past the table a code yet unknown, 17 a frozen account and 67 a pause. */
  lemma CodeOfExactly(custom: int, code: RefusalCode)
    ensures CodeOf(custom) == Some(Some(code)) <==>
            || (Rank(code) < 13 && custom == 6000 + Rank(code))
            || (code == AccountFrozen && custom == 17)
            || (code == TransfersPaused && custom == 67)
    ensures CodeOf(custom) == Some(None) <==> custom >= 6013
  {
    if ANCHOR_ERROR_OFFSET <= custom < ANCHOR_ERROR_OFFSET + HOOK_CODES {
      var found := REFUSAL_CODES[custom - ANCHOR_ERROR_OFFSET];
      assert Rank(found) == custom - ANCHOR_ERROR_OFFSET;
    }
  }

  function Hooked(programId: string): Instruction -> bool { (ix: Instruction) => IsHookedTransfer(ix, programId) }

  function IsTransferDraft(): EventDraft -> bool { (d: EventDraft) => d.body.Transfer? }

  /** The program's own instructions never read as transfers. */
  ghost predicate DecodesNoTransfer(oracle: Oracle) {
    forall ix: Instruction :: match oracle.decode(ix)
      case WithEvents(Ok(drafts)) => forall d :: d in drafts ==> !d.body.Transfer?
      case _ => true
  }

  ghost predicate TransfersOf(response: Response, oracle: Oracle, drafts: seq<EventDraft>, ixs: seq<Instruction>)
    requires Resolvable(response)
  {
    && |drafts| == |ixs|
    && forall i :: 0 <= i < |ixs| ==>
         && drafts[i].body.Transfer? && TellsParties(response, oracle, ixs[i], drafts[i].body.parties)
         && drafts[i].mint == ixs[i].accounts[1]
  }

  lemma TransfersJoin(response: Response, oracle: Oracle, a: seq<EventDraft>, s: seq<Instruction>, b: seq<EventDraft>,
                      t: seq<Instruction>)
    requires Resolvable(response) && TransfersOf(response, oracle, a, s) && TransfersOf(response, oracle, b, t)
    ensures TransfersOf(response, oracle, a + b, s + t)
  {
  }

  lemma {:induction false} NoTransfersAmong(drafts: seq<EventDraft>)
    requires forall d :: d in drafts ==> !d.body.Transfer?
    ensures Filter(drafts, IsTransferDraft()) == []
  {
    if drafts != [] {
      assert drafts[0] in drafts;
      NoTransfersAmong(drafts[1..]);
    }
  }

  lemma OneInstruction(response: Response, oracle: Oracle, programId: string, ix: Instruction)
    requires Resolvable(response) && DecodesNoTransfer(oracle) && DraftsOf(response, oracle, programId, ix).Ok?
    ensures TransfersOf(response, oracle, Filter(DraftsOf(response, oracle, programId, ix).value, IsTransferDraft()),
                        Filter([ix], Hooked(programId)))
  {
    var drafts := DraftsOf(response, oracle, programId, ix).value;
    if IsHookedTransfer(ix, programId) { PartiesTold(response, oracle, ix); } else { NoTransfersAmong(drafts); }
  }

  /** The transfers a transaction that succeeded leaves are exactly its hooked transfers, in the order they ran. */
  lemma {:induction false} TransfersAreHooked(response: Response, oracle: Oracle, programId: string, signature: string,
                                              ixs: seq<Instruction>)
    requires Resolvable(response) && DecodesNoTransfer(oracle)
    requires FoundIn(response, oracle, programId, signature, ixs).Ok?
    ensures TransfersOf(response, oracle,
                        Filter(FoundIn(response, oracle, programId, signature, ixs).value.drafts, IsTransferDraft()),
                        Filter(ixs, Hooked(programId)))
  {
    if ixs != [] {
      var n := |ixs| - 1;
      var before, ix := ixs[..n], ixs[n];
      TransfersAreHooked(response, oracle, programId, signature, before);
      OneInstruction(response, oracle, programId, ix);
      assert ixs == before + [ix];
      FilterConcat(before, [ix], Hooked(programId));
      var found, drafts := FoundIn(response, oracle, programId, signature, before).value.drafts,
                           DraftsOf(response, oracle, programId, ix).value;
      FilterConcat(found, drafts, IsTransferDraft());
      TransfersJoin(response, oracle, Filter(found, IsTransferDraft()), Filter(before, Hooked(programId)),
                    Filter(drafts, IsTransferDraft()), Filter([ix], Hooked(programId)));
    }
  }

  lemma CodeOfRank(code: RefusalCode)
    ensures Rank(code) < HOOK_CODES ==> CodeOf(ANCHOR_ERROR_OFFSET + Rank(code)) == Some(Some(code))
    ensures KindOf(code).Some? ==> Rank(code) < HOOK_CODES
  {
  }

  lemma RuleSlotIsSlotOfKind(oracle: Oracle, ix: Instruction, rules: RuleBytes, code: RefusalCode)
    requires |ix.accounts| > POLICY_POSITION_IN_TRANSFER && KindOf(code).Some?
    requires oracle.rulesAt(ix.accounts[POLICY_POSITION_IN_TRANSFER]) == Some(rules)
    ensures RuleSlotOf(oracle, ix, Some(code)) == SlotOfKind(SlotsOf(rules), KindOf(code).value)
  {
  }

  /**
   * When the policy account holds the encoded policy and the error is the number of the evaluator's
   * refusal, the event names that refusal, and its slot is the one whose bytes spell the rule that refused.
   */
  lemma RefusalEventNamesRule(rules: Policy, ctx: TransferContext, code: RefusalCode, oracle: Oracle, ix: Instruction)
    requires Valid(rules) && Judge(rules, ctx) == Refused(code) && code != PolicyVersionMismatch
    requires |ix.accounts| > POLICY_POSITION_IN_TRANSFER
    requires oracle.rulesAt(ix.accounts[POLICY_POSITION_IN_TRANSFER]) == Some(Encode(rules).value)
    ensures CodeOf(ANCHOR_ERROR_OFFSET + Rank(code)) == Some(Some(code))
    ensures
      var slot := RuleSlotOf(oracle, ix, Some(code));
      slot.Some? && slot.value < MAX_RULE_SLOTS
      && SpellsRule(SlotsOf(Encode(rules).value)[slot.value], Normalise(rules))
  {
    RefusalNamesItsRule(rules, ctx);
    CodeOfRank(code);
    RuleSlotIsSlotOfKind(oracle, ix, Encode(rules).value, code);
  }

  /**
   * Whatever the hook refuses under rules the program let into the policy account, the event names
   * that refusal and the one slot whose bytes spell the rule that refused, or no slot for a
   * version mismatch.
   */
  lemma HookRefusalEventNamesRule(slots: seq<Slot>, ctx: TransferContext, code: RefusalCode, oracle: Oracle, ix: Instruction)
    requires Sized(slots) && ProgramAccepts(slots) && ValidContext(ctx)
    requires ProgramVerdict(ViewOf(slots), ctx) == Refused(code)
    requires |ix.accounts| > POLICY_POSITION_IN_TRANSFER
    requires oracle.rulesAt(ix.accounts[POLICY_POSITION_IN_TRANSFER]) == Some(BytesOf(slots))
    ensures CodeOf(ANCHOR_ERROR_OFFSET + Rank(code)) == Some(Some(code))
    ensures
      var slot := RuleSlotOf(oracle, ix, Some(code));
      && (slot.None? <==> code == PolicyVersionMismatch)
      && (slot.Some? ==>
            && Accepted(slots) && SpellsRule(slots[slot.value], Decode(slots).value)
            && forall i :: 0 <= i < |slots| && slots[i].kind == KindOf(code).value ==> i == slot.value)
  {
    HookRefusalNamesItsRule(slots, ctx, code);
    CodeOfRank(code);
    SlotsOfBytesOf(slots);
    if code != PolicyVersionMismatch { RuleSlotIsSlotOfKind(oracle, ix, BytesOf(slots), code); }
  }
}
