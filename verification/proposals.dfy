/** A deferred action of the quorum and its account (programs/issuer-forge/src/state/proposal.rs, state/delegation.rs). */
module Proposals {
  import opened Common
  import opened Quorum

  const MIN_PROPOSAL_TERM := 60 * 60
  const MAX_PROPOSAL_TERM := 30 * 24 * 60 * 60
  const DELEGATION_ALL: bv8 := 7

  /** What the account stores. A delegation change is a transition: from what, to what. */
  datatype Action =
    | SetDelegation(previousKey: Key, previousMask: bv8, operationalKey: Key, mask: bv8)
    | TokenAction(digest: nat)

  /** `executedAt` is zero until the proposal is executed. */
  datatype Proposal = Proposal(action: Action, approvals: seq<Key>, expiresAt: int, executedAt: int)

  datatype ForgeError =
    | NotAuthorising
    | Duplicate
    | QuorumShort
    | TermOutOfRange
    | DelegationInvalid
    | DelegationUnchanged
    | DelegationChangedSinceProposal
    | AddressTaken
    | NoSuchProposal
    | AlreadyExecuted
    | Expired
    | StillLive
    | ApprovalsFull
    | ApproversNotListed
    | NotAnAdmin
    | ActionRefused

  datatype Outcome = Fine | Fail(error: ForgeError)

  function Live(p: Proposal, now: int): Outcome {
    if p.executedAt != 0 then Fail(AlreadyExecuted)
    else if now > p.expiresAt then Fail(Expired)
    else Fine
  }

  function Closable(p: Proposal, now: int): Outcome {
    if p.executedAt != 0 || now > p.expiresAt then Fine else Fail(StillLive)
  }

  function WithApproval(p: Proposal, wallet: Key): Result<Proposal, ForgeError> {
    if wallet in p.approvals then Err(Duplicate)
    else if |p.approvals| >= MAX_MEMBERS then Err(ApprovalsFull)
    else Ok(p.(approvals := p.approvals + [wallet]))
  }

  function FromQuorum(answer: QuorumAnswer): Outcome {
    match answer
    case QuorumOk => Fine
    case NotAnAuthorisingSigner => Fail(NotAuthorising)
    case DuplicateApproval => Fail(Duplicate)
    case QuorumNotReached => Fail(QuorumShort)
  }

  /** The account: eight rows for approvals and how many of them are in use. */
  class ActionProposal {
    const action: Action
    const expiresAt: int
    var approvals: array<Key>
    var approvalCount: nat
    var executedAt: int

    ghost predicate Valid()
      reads this
    {
      approvals.Length == MAX_MEMBERS && approvalCount <= MAX_MEMBERS
    }

    ghost function Contents(): Proposal
      requires Valid()
      reads this, approvals
    {
      Proposal(action, approvals[..approvalCount], expiresAt, executedAt)
    }

    constructor (action: Action, expiresAt: int, proposer: Key)
      ensures Valid() && fresh(approvals)
      ensures Contents() == Proposal(action, [proposer], expiresAt, 0)
    {
      this.action, this.expiresAt := action, expiresAt;
      approvals := new Key[MAX_MEMBERS](_ => DEFAULT_KEY);
      approvalCount, executedAt := 1, 0;
      new;
      approvals[0] := proposer;
    }

    /** Records an authorisation in the next free row; a refusal leaves the account as it was. */
    method AddApproval(wallet: Key) returns (outcome: Outcome)
      requires Valid()
      modifies this, approvals
      ensures Valid() && approvals == old(approvals)
      ensures match WithApproval(old(Contents()), wallet)
              case Ok(p) => outcome == Fine && Contents() == p
              case Err(e) => outcome == Fail(e) && Contents() == old(Contents())
    {
      for i := 0 to approvalCount
        invariant wallet !in approvals[..i]
      {
        if approvals[i] == wallet { return Fail(Duplicate); }
      }
      if approvalCount >= MAX_MEMBERS { return Fail(ApprovalsFull); }
      approvals[approvalCount] := wallet;
      approvalCount := approvalCount + 1;
      outcome := Fine;
      assert approvals[..approvalCount] == old(approvals[..approvalCount]) + [wallet];
    }

    method MarkExecuted(now: int)
      requires Valid()
      modifies this`executedAt
      ensures Valid() && Contents() == old(Contents()).(executedAt := now)
    {
      executedAt := now;
    }
  }
}

/**
 * One issuer on chain: its membership, its delegation and its open proposals, changed one
 * instruction at a time (programs/issuer-forge/src/instructions/proposal.rs, set_delegation.rs).
 */
module IssuerMachine {
  import opened Common
  import opened Ordering
  import opened Quorum
  import opened Proposals

  /** A proposal account and the number of the raise that created it; an address can be reused after a close. */
  datatype Raised = Raised(serial: nat, proposal: Proposal)

  /** An execution, with everything it was decided on at that moment. */
  datatype Execution = Execution(
    serial: nat, at: int, proposal: Proposal, membership: Membership, key: Key, mask: bv8)

  datatype Issuer = Issuer(
    now: int, membership: Membership, operationalKey: Key, mask: bv8,
    proposals: map<nat, Raised>, raises: nat, executions: seq<Execution>)

  datatype Proposed = ProposeDelegation(operationalKey: Key, mask: bv8) | ProposeTokenAction(digest: nat)

  /**
   * The instructions. `permitted` stands for what a token action checks of its own, the reserve
   * or the mint's pause; `Membership` is the membership change the program leaves for later,
   * here any change at all.
   */
  datatype Step =
    | Raise(nonce: nat, term: int, action: Proposed, proposer: Key)
    | Approve(nonce: nat, approver: Key)
    | Execute(nonce: nat, listed: seq<Key>, permitted: bool)
    | Close(nonce: nat, member: Key)
    | ChangeDelegation(operationalKey: Key, mask: bv8, signers: seq<Key>)
    | ChangeMembership(membership: Membership)
    | Tick(seconds: nat)

  predicate Subset(a: bv8, b: bv8) { a & !b == 0 }

  predicate IsMember(m: Membership, wallet: Key) {
    exists i :: 0 <= i < |m.members| && m.members[i].roles != 0 && m.members[i].wallet == wallet
  }

  predicate DelegationValid(m: Membership, operationalKey: Key, mask: bv8) {
    operationalKey != DEFAULT_KEY && Subset(mask, DELEGATION_ALL) && !IsMember(m, operationalKey)
  }

  /** A change to this key and mask, with the delegation of the moment as its start. */
  function DelegationAction(s: Issuer, operationalKey: Key, mask: bv8): Result<Action, ForgeError> {
    if !DelegationValid(s.membership, operationalKey, mask) then Err(DelegationInvalid)
    else if operationalKey == s.operationalKey && mask == s.mask then Err(DelegationUnchanged)
    else Ok(SetDelegation(s.operationalKey, s.mask, operationalKey, mask))
  }

  predicate IsNarrowing(s: Issuer, operationalKey: Key, mask: bv8) {
    operationalKey == s.operationalKey && Subset(mask, s.mask)
  }

  /** Narrowing takes one admin among current authorising members; anything else takes the quorum. */
  function ChangeAuthorised(s: Issuer, signers: seq<Key>, narrowing: bool): Outcome {
    if !narrowing then FromQuorum(Check(s.membership, signers))
    else
      match CheckFrom(s.membership.(quorumN := 0), signers, 0)
      case NotAnAuthorisingSigner => Fail(NotAuthorising)
      case DuplicateApproval => Fail(Duplicate)
      case _ =>
        if exists i :: 0 <= i < |signers| && MemberHas(s.membership, signers[i], ADMIN) then Fine else Fail(NotAnAdmin)
  }

  function StoredForm(s: Issuer, action: Proposed): Result<Action, ForgeError> {
    match action
    case ProposeDelegation(key, mask) => DelegationAction(s, key, mask)
    case ProposeTokenAction(digest) => Ok(TokenAction(digest))
  }

  function RaiseStep(s: Issuer, nonce: nat, term: int, action: Proposed, proposer: Key): Result<Issuer, ForgeError> {
    if nonce in s.proposals then Err(AddressTaken)
    else if !MemberHas(s.membership, proposer, AUTHORISING) then Err(NotAuthorising)
    else if !(MIN_PROPOSAL_TERM <= term <= MAX_PROPOSAL_TERM) then Err(TermOutOfRange)
    else
      var stored := StoredForm(s, action);
      if stored.Err? then Err(stored.error)
      else
        var p := Proposal(stored.value, [proposer], s.now + term, 0);
        Ok(s.(proposals := s.proposals[nonce := Raised(s.raises, p)], raises := s.raises + 1))
  }

  function ApproveStep(s: Issuer, nonce: nat, approver: Key): Result<Issuer, ForgeError> {
    if nonce !in s.proposals then Err(NoSuchProposal)
    else if !MemberHas(s.membership, approver, AUTHORISING) then Err(NotAuthorising)
    else
      var r := s.proposals[nonce];
      match Live(r.proposal, s.now)
      case Fail(e) => Err(e)
      case Fine =>
        match WithApproval(r.proposal, approver)
        case Err(e) => Err(e)
        case Ok(p) => Ok(s.(proposals := s.proposals[nonce := r.(proposal := p)]))
  }

  /** Whether the action may run now at all, before its proposal is looked at. */
  function Target(s: Issuer, action: Action): Result<Action, ForgeError> {
    match action
    case TokenAction(_) => Ok(action)
    case SetDelegation(_, _, key, mask) => DelegationAction(s, key, mask)
  }

  function ExecuteStep(s: Issuer, nonce: nat, listed: seq<Key>, permitted: bool): Result<Issuer, ForgeError> {
    if nonce !in s.proposals then Err(NoSuchProposal)
    else
      var r := s.proposals[nonce];
      var p := r.proposal;
      var target := Target(s, p.action);
      var live := Live(p, s.now);
      var quorum := FromQuorum(Check(s.membership, p.approvals));
      if target.Err? then Err(target.error)
      else if live.Fail? then Err(live.error)
      else if target.value != p.action then Err(DelegationChangedSinceProposal)
      else if quorum.Fail? then Err(quorum.error)
      else if !RequireListed(listed, p.approvals) then Err(ApproversNotListed)
      else if p.action.TokenAction? && !permitted then Err(ActionRefused)
      else
        var changed := if p.action.SetDelegation? then s.(operationalKey := p.action.operationalKey, mask := p.action.mask)
                       else s;
        Ok(changed.(proposals := s.proposals[nonce := r.(proposal := p.(executedAt := s.now))],
                    executions := s.executions
                      + [Execution(r.serial, s.now, p, s.membership, s.operationalKey, s.mask)]))
  }

  function CloseStep(s: Issuer, nonce: nat, member: Key): Result<Issuer, ForgeError> {
    if nonce !in s.proposals then Err(NoSuchProposal)
    else if !MemberHas(s.membership, member, AUTHORISING) then Err(NotAuthorising)
    else
      match Closable(s.proposals[nonce].proposal, s.now)
      case Fail(e) => Err(e)
      case Fine => Ok(s.(proposals := s.proposals - {nonce}))
  }

  function ChangeDelegationStep(s: Issuer, operationalKey: Key, mask: bv8, signers: seq<Key>): Result<Issuer, ForgeError> {
    match DelegationAction(s, operationalKey, mask)
    case Err(e) => Err(e)
    case Ok(_) =>
      match ChangeAuthorised(s, signers, IsNarrowing(s, operationalKey, mask))
      case Fail(e) => Err(e)
      case Fine => Ok(s.(operationalKey := operationalKey, mask := mask))
  }

  function Apply(s: Issuer, step: Step): Result<Issuer, ForgeError> {
    match step
    case Raise(nonce, term, action, proposer) => RaiseStep(s, nonce, term, action, proposer)
    case Approve(nonce, approver) => ApproveStep(s, nonce, approver)
    case Execute(nonce, listed, permitted) => ExecuteStep(s, nonce, listed, permitted)
    case Close(nonce, member) => CloseStep(s, nonce, member)
    case ChangeDelegation(key, mask, signers) => ChangeDelegationStep(s, key, mask, signers)
    case ChangeMembership(m) => Ok(s.(membership := m))
    case Tick(seconds) => Ok(s.(now := s.now + seconds))
  }

  /** A refused instruction changes nothing. */
  function Next(s: Issuer, step: Step): Issuer {
    var r := Apply(s, step);
    if r.Ok? then r.value else s
  }

  function Run(s: Issuer, steps: seq<Step>): Issuer {
    if steps == [] then s else Next(Run(s, steps[..|steps| - 1]), steps[|steps| - 1])
  }

  // ─── What every run keeps ──────────────────────────────────────────────────

  ghost predicate ProposalOk(s: Issuer, r: Raised) {
    && r.serial < s.raises
    && 1 <= |r.proposal.approvals| <= MAX_MEMBERS
    && Distinct(r.proposal.approvals)
  }

  /** An execution was inside its term and authorised by its quorum, as the membership stood at that moment. */
  ghost predicate ExecutionOk(s: Issuer, e: Execution) {
    && e.serial < s.raises
    && 0 < e.at <= e.proposal.expiresAt && e.at <= s.now
    && e.proposal.executedAt == 0
    && AllAuthorise(e.membership, e.proposal.approvals)
    && Distinct(e.proposal.approvals)
    && e.membership.quorumN <= |e.proposal.approvals| <= MAX_MEMBERS
    && (e.proposal.action.SetDelegation? ==>
          e.proposal.action.previousKey == e.key && e.proposal.action.previousMask == e.mask)
  }

  predicate WasExecuted(s: Issuer, serial: nat) {
    exists i :: 0 <= i < |s.executions| && s.executions[i].serial == serial
  }

  ghost predicate Kept(s: Issuer) {
    && s.now > 0
    && (forall n :: n in s.proposals ==> ProposalOk(s, s.proposals[n]))
    && (forall n, m :: n in s.proposals && m in s.proposals && s.proposals[n].serial == s.proposals[m].serial ==> n == m)
    && (forall n :: n in s.proposals ==>
          (s.proposals[n].proposal.executedAt != 0 <==> WasExecuted(s, s.proposals[n].serial)))
    && (forall i :: 0 <= i < |s.executions| ==> ExecutionOk(s, s.executions[i]))
    && (forall i, j :: 0 <= i < j < |s.executions| ==> s.executions[i].serial != s.executions[j].serial)
  }

  lemma KeptByRaise(s: Issuer, nonce: nat, term: int, action: Proposed, proposer: Key)
    requires Kept(s) && RaiseStep(s, nonce, term, action, proposer).Ok?
    ensures Kept(RaiseStep(s, nonce, term, action, proposer).value)
  {
  }

  lemma KeptByApprove(s: Issuer, nonce: nat, approver: Key)
    requires Kept(s) && ApproveStep(s, nonce, approver).Ok?
    ensures Kept(ApproveStep(s, nonce, approver).value)
  {
    var t := ApproveStep(s, nonce, approver).value;
    assert ProposalOk(s, s.proposals[nonce]);
    assert forall n :: n in t.proposals ==> t.proposals[n].serial == s.proposals[n].serial;
    assert forall serial :: WasExecuted(t, serial) == WasExecuted(s, serial);
  }

  lemma KeptByExecute(s: Issuer, nonce: nat, listed: seq<Key>, permitted: bool)
    requires Kept(s) && ExecuteStep(s, nonce, listed, permitted).Ok?
    ensures Kept(ExecuteStep(s, nonce, listed, permitted).value)
  {
    var t := ExecuteStep(s, nonce, listed, permitted).value;
    var r := s.proposals[nonce];
    assert ProposalOk(s, r);
    CheckMeaning(s.membership, r.proposal.approvals);
    assert t.executions[|s.executions|].serial == r.serial;
    forall serial ensures WasExecuted(t, serial) <==> WasExecuted(s, serial) || serial == r.serial {
      if WasExecuted(s, serial) {
        var i :| 0 <= i < |s.executions| && s.executions[i].serial == serial;
        assert t.executions[i].serial == serial;
      }
    }
    forall i | 0 <= i < |t.executions| ensures ExecutionOk(t, t.executions[i]) {
      if i < |s.executions| { assert ExecutionOk(s, s.executions[i]); }
    }
    forall n | n in t.proposals ensures t.proposals[n].serial == s.proposals[n].serial && ProposalOk(t, t.proposals[n]) {
      assert ProposalOk(s, s.proposals[n]);
    }
    assert !WasExecuted(s, r.serial);
  }

  lemma KeptByClose(s: Issuer, nonce: nat, member: Key)
    requires Kept(s) && CloseStep(s, nonce, member).Ok?
    ensures Kept(CloseStep(s, nonce, member).value)
  {
    var t := CloseStep(s, nonce, member).value;
    assert forall serial :: WasExecuted(t, serial) == WasExecuted(s, serial);
  }

  lemma KeptByOther(s: Issuer, t: Issuer)
    requires Kept(s) && t.now >= s.now
    requires t.proposals == s.proposals && t.raises == s.raises && t.executions == s.executions
    ensures Kept(t)
  {
    assert forall serial :: WasExecuted(t, serial) == WasExecuted(s, serial);
    forall i | 0 <= i < |t.executions| ensures ExecutionOk(t, t.executions[i]) { assert ExecutionOk(s, s.executions[i]); }
    forall n | n in t.proposals ensures ProposalOk(t, t.proposals[n]) { assert ProposalOk(s, s.proposals[n]); }
  }

  lemma KeptByStep(s: Issuer, step: Step)
    requires Kept(s)
    ensures Kept(Next(s, step))
  {
    if Apply(s, step).Ok? {
      match step
      case Raise(nonce, term, action, proposer) => KeptByRaise(s, nonce, term, action, proposer);
      case Approve(nonce, approver) => KeptByApprove(s, nonce, approver);
      case Execute(nonce, listed, permitted) => KeptByExecute(s, nonce, listed, permitted);
      case Close(nonce, member) => KeptByClose(s, nonce, member);
      case _ => KeptByOther(s, Next(s, step));
    }
  }

  /**
   * In every run: approvals stay distinct and at most eight; no raise is executed twice; every
   * execution fell within its term with all its approvers authorising at that moment and no fewer
   * of them than the quorum; and every executed delegation change started from the key and mask
   * it was raised against.
   */
  lemma {:induction false} RunKeeps(s: Issuer, steps: seq<Step>)
    requires Kept(s)
    ensures Kept(Run(s, steps))
  {
    if steps != [] {
      RunKeeps(s, steps[..|steps| - 1]);
      KeptByStep(Run(s, steps[..|steps| - 1]), steps[|steps| - 1]);
    }
  }

  // ─── Approvals are append-only ─────────────────────────────────────────────

  /** The proposal of this raise, wherever it is. */
  ghost predicate Holds(s: Issuer, serial: nat, p: Proposal) {
    exists n :: n in s.proposals && s.proposals[n] == Raised(serial, p)
  }

  ghost predicate Grew(p: Proposal, q: Proposal) {
    && p.approvals <= q.approvals
    && p.action == q.action && p.expiresAt == q.expiresAt
    && (p.executedAt != 0 ==> q == p)
  }

  lemma GrewInStep(s: Issuer, step: Step, serial: nat, p: Proposal, q: Proposal)
    requires Kept(s) && Holds(s, serial, p) && Holds(Next(s, step), serial, q)
    ensures Grew(p, q)
  {
    var n :| n in s.proposals && s.proposals[n] == Raised(serial, p);
    var m :| m in Next(s, step).proposals && Next(s, step).proposals[m] == Raised(serial, q);
    assert ProposalOk(s, s.proposals[n]);
    RaisesGrow(s, step);
    GrewInPlace(s, step, n);
  }

  lemma GrewInPlace(s: Issuer, step: Step, n: nat)
    requires n in s.proposals && n in Next(s, step).proposals
    requires Next(s, step).proposals[n].serial == s.proposals[n].serial < s.raises
    ensures Grew(s.proposals[n].proposal, Next(s, step).proposals[n].proposal)
  {
  }

  lemma RaisesGrow(s: Issuer, step: Step)
    ensures Next(s, step).raises >= s.raises && Next(s, step).now >= s.now
    ensures forall m :: m in Next(s, step).proposals && Next(s, step).proposals[m].serial < s.raises ==>
              m in s.proposals && s.proposals[m].serial == Next(s, step).proposals[m].serial
  {
  }

  /** From any point of a run to any later one a proposal's approvals only grow at the end, and nothing else it says changes. */
  lemma {:induction false} ApprovalsAppendOnly(s: Issuer, steps: seq<Step>, serial: nat, p: Proposal, q: Proposal)
    requires Kept(s) && Holds(s, serial, p) && Holds(Run(s, steps), serial, q)
    ensures Grew(p, q)
  {
    if steps == [] {
      var n :| n in s.proposals && s.proposals[n] == Raised(serial, p);
      var m :| m in s.proposals && s.proposals[m] == Raised(serial, q);
    } else {
      var before, step := Run(s, steps[..|steps| - 1]), steps[|steps| - 1];
      RunKeeps(s, steps[..|steps| - 1]);
      RunRaises(s, steps[..|steps| - 1]);
      RaisesGrow(before, step);
      var m :| m in Run(s, steps).proposals && Run(s, steps).proposals[m] == Raised(serial, q);
      var n :| n in s.proposals && s.proposals[n] == Raised(serial, p);
      assert ProposalOk(s, s.proposals[n]);
      var mid := before.proposals[m].proposal;
      assert Holds(before, serial, mid);
      ApprovalsAppendOnly(s, steps[..|steps| - 1], serial, p, mid);
      GrewInStep(before, step, serial, mid, q);
    }
  }

  lemma {:induction false} RunRaises(s: Issuer, steps: seq<Step>)
    ensures Run(s, steps).raises >= s.raises && Run(s, steps).now >= s.now
  {
    if steps != [] {
      RunRaises(s, steps[..|steps| - 1]);
      RaisesGrow(Run(s, steps[..|steps| - 1]), steps[|steps| - 1]);
    }
  }
}
