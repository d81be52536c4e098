/** What runs of an issuer's instructions can and cannot bring about. */
module IssuerLaws {
  import opened Common
  import opened Ordering
  import opened Quorum
  import opened Proposals
  import opened IssuerMachine
  import opened ProposalStanding

  // ─── A blocked proposal stays blocked ──────────────────────────────────────

  /** Every membership change in the run leaves no wallet authorising that was not before. */
  ghost predicate OnlyShrinks(s: Issuer, steps: seq<Step>) {
    forall i :: 0 <= i < |steps| && steps[i].ChangeMembership? ==>
      Authorising(steps[i].membership) <= Authorising(Run(s, steps[..i]).membership)
  }

  /** Some signature on the proposal is by a wallet that may not authorise. */
  ghost predicate HasLapsed(p: Proposal, m: Membership) {
    exists w :: w in p.approvals && w !in Authorising(m)
  }

  lemma LapsedIsBlocked(p: Proposal, m: Membership, now: int)
    ensures StandingOf(p, m, now).state == Blocked <==> p.executedAt == 0 && now <= p.expiresAt && HasLapsed(p, m)
  {
    AuthorisingWalletsMembers(m);
  }

  /** This raise was never executed, and its proposal, if it is still there, carries a lapsed signature. */
  ghost predicate Stuck(s: Issuer, serial: nat) {
    && !WasExecuted(s, serial)
    && forall n :: n in s.proposals && s.proposals[n].serial == serial ==>
         s.proposals[n].proposal.executedAt == 0 && HasLapsed(s.proposals[n].proposal, s.membership)
  }

  /** What one instruction does to a proposal that was there before it. */
  lemma ProposalInStep(s: Issuer, step: Step, n: nat)
    requires n in s.proposals && n in Next(s, step).proposals
    requires Next(s, step).proposals[n].serial == s.proposals[n].serial
    requires Check(s.membership, s.proposals[n].proposal.approvals) != QuorumOk
    ensures
      var p, q := s.proposals[n].proposal, Next(s, step).proposals[n].proposal;
      p.executedAt == q.executedAt && p.approvals <= q.approvals
  {
    if Apply(s, step).Ok? {
      match step
      case Raise(_, _, _, _) =>
      case Approve(_, _) =>
      case Execute(nonce, _, _) => assert nonce != n;
      case Close(_, _) =>
      case _ => assert Next(s, step).proposals == s.proposals;
    }
  }

  lemma MembershipInStep(s: Issuer, step: Step)
    ensures Next(s, step).membership == if step.ChangeMembership? then step.membership else s.membership
  {
  }

  /** What a step executes it found in place and signed by the quorum. */
  lemma ExecutedInStep(s: Issuer, step: Step, serial: nat)
    requires !WasExecuted(s, serial) && WasExecuted(Next(s, step), serial)
    ensures exists n :: n in s.proposals && s.proposals[n].serial == serial
                        && Check(s.membership, s.proposals[n].proposal.approvals) == QuorumOk
  {
    var t := Next(s, step);
    var i :| 0 <= i < |t.executions| && t.executions[i].serial == serial;
    assert step.Execute? && t != s;
    assert s.proposals[step.nonce].serial == serial;
  }

  lemma StuckStep(s: Issuer, step: Step, serial: nat)
    requires Stuck(s, serial) && serial < s.raises
    requires step.ChangeMembership? ==> Authorising(step.membership) <= Authorising(s.membership)
    ensures Stuck(Next(s, step), serial)
  {
    var t := Next(s, step);
    RaisesGrow(s, step);
    MembershipInStep(s, step);
    if WasExecuted(t, serial) {
      ExecutedInStep(s, step, serial);
      var n :| n in s.proposals && s.proposals[n].serial == serial
               && Check(s.membership, s.proposals[n].proposal.approvals) == QuorumOk;
      CheckMeaning(s.membership, s.proposals[n].proposal.approvals);
      assert false;
    }
    forall n | n in t.proposals && t.proposals[n].serial == serial
      ensures t.proposals[n].proposal.executedAt == 0 && HasLapsed(t.proposals[n].proposal, t.membership)
    {
      var p := s.proposals[n].proposal;
      var w :| w in p.approvals && w !in Authorising(s.membership);
      CheckMeaning(s.membership, p.approvals);
      ProposalInStep(s, step, n);
      assert w in t.proposals[n].proposal.approvals;
    }
  }

  lemma {:induction false} StuckStays(s: Issuer, steps: seq<Step>, serial: nat)
    requires Kept(s) && Stuck(s, serial) && serial < s.raises && OnlyShrinks(s, steps)
    ensures Stuck(Run(s, steps), serial)
  {
    if steps != [] {
      var n := |steps| - 1;
      var before := steps[..n];
      assert forall i :: 0 <= i < n ==> before[..i] == steps[..i] && before[i] == steps[i];
      StuckStays(s, before, serial);
      RunKeeps(s, before);
      RunRaises(s, before);
      StuckStep(Run(s, before), steps[n], serial);
    }
  }

  /**
   * While the membership only shrinks, a blocked proposal is never executed, whether its account
   * is closed or not, and as long as the account exists it stays blocked until it expires.
   */
  lemma BlockedNeverReady(s: Issuer, steps: seq<Step>, n: nat)
    requires Kept(s) && OnlyShrinks(s, steps)
    requires n in s.proposals && StandingOf(s.proposals[n].proposal, s.membership, s.now).state == Blocked
    ensures
      var t, serial := Run(s, steps), s.proposals[n].serial;
      && !WasExecuted(t, serial)
      && forall m :: m in t.proposals && t.proposals[m].serial == serial ==>
           StandingOf(t.proposals[m].proposal, t.membership, t.now).state in {Blocked, ExpiredState}
  {
    var serial := s.proposals[n].serial;
    LapsedIsBlocked(s.proposals[n].proposal, s.membership, s.now);
    assert ProposalOk(s, s.proposals[n]);
    forall k | k in s.proposals && s.proposals[k].serial == serial ensures k == n {}
    StuckStays(s, steps, serial);
    var t := Run(s, steps);
    forall m | m in t.proposals && t.proposals[m].serial == serial
      ensures StandingOf(t.proposals[m].proposal, t.membership, t.now).state in {Blocked, ExpiredState}
    {
      LapsedIsBlocked(t.proposals[m].proposal, t.membership, t.now);
    }
  }

  // ─── What is accepted and what it writes ───────────────────────────────────

  /** A key and a mask that may be stored: a key that is nobody's in the membership, and no power outside the three delegable ones. */
  predicate MayBeStored(s: Issuer, key: Key, mask: bv8) {
    && key != 0 && !IsMember(s.membership, key) && mask & 0xF8 == 0
    && (key != s.operationalKey || mask != s.mask)
  }

  /** The signers are distinct authorising members of the moment, no fewer than the quorum of the moment. */
  ghost predicate SignedByQuorum(s: Issuer, signers: seq<Key>) {
    AllAuthorise(s.membership, signers) && Distinct(signers) && |signers| >= s.membership.quorumN
  }

  /** Distinct authorising members, an admin among them. */
  ghost predicate SignedByAdmin(s: Issuer, signers: seq<Key>) {
    && AllAuthorise(s.membership, signers) && Distinct(signers)
    && exists w :: w in signers && MemberHas(s.membership, w, ADMIN)
  }

  /** The proposal is neither executed nor past its term. */
  predicate IsLive(s: Issuer, nonce: nat) {
    && nonce in s.proposals && s.proposals[nonce].proposal.executedAt == 0
    && s.now <= s.proposals[nonce].proposal.expiresAt
  }

  lemma NarrowingSigners(m: Membership, signers: seq<Key>)
    ensures CheckFrom(m.(quorumN := 0), signers, 0) == QuorumOk <==> AllAuthorise(m, signers) && Distinct(signers)
    ensures CheckFrom(m.(quorumN := 0), signers, 0) != QuorumNotReached
    ensures (exists i :: 0 <= i < |signers| && MemberHas(m, signers[i], ADMIN)) <==>
            exists w :: w in signers && MemberHas(m, w, ADMIN)
  {
    var any := m.(quorumN := 0);
    CheckMeaning(any, signers);
    forall w ensures MemberHas(any, w, AUTHORISING) <==> MemberHas(m, w, AUTHORISING) {}
  }

  ghost predicate MayExecute(s: Issuer, nonce: nat, listed: seq<Key>, permitted: bool) {
    && IsLive(s, nonce) && listed == s.proposals[nonce].proposal.approvals && SignedByQuorum(s, listed)
    && match s.proposals[nonce].proposal.action
       case TokenAction(_) => permitted
       case SetDelegation(fromKey, fromMask, key, mask) =>
         fromKey == s.operationalKey && fromMask == s.mask && MayBeStored(s, key, mask)
  }

  ghost predicate MayChange(s: Issuer, key: Key, mask: bv8, signers: seq<Key>) {
    && MayBeStored(s, key, mask)
    && (if key == s.operationalKey && mask & !s.mask == 0 then SignedByAdmin(s, signers) else SignedByQuorum(s, signers))
  }

  lemma StorableExactly(s: Issuer, key: Key, mask: bv8)
    ensures DelegationAction(s, key, mask).Ok? <==> MayBeStored(s, key, mask)
    ensures DelegationAction(s, key, mask).Ok? ==>
              DelegationAction(s, key, mask).value == SetDelegation(s.operationalKey, s.mask, key, mask)
  {
  }

  lemma ListedExactly(listed: seq<Key>, approvals: seq<Key>)
    ensures RequireListed(listed, approvals) <==> listed == approvals
  {
  }

  lemma ExecutedExactly(s: Issuer, nonce: nat, listed: seq<Key>, permitted: bool)
    ensures ExecuteStep(s, nonce, listed, permitted).Ok? <==> MayExecute(s, nonce, listed, permitted)
  {
    if nonce in s.proposals {
      var p := s.proposals[nonce].proposal;
      CheckMeaning(s.membership, p.approvals);
      ListedExactly(listed, p.approvals);
      if p.action.SetDelegation? { StorableExactly(s, p.action.operationalKey, p.action.mask); }
    }
  }

  lemma ChangedExactly(s: Issuer, key: Key, mask: bv8, signers: seq<Key>)
    ensures ChangeDelegationStep(s, key, mask, signers).Ok? <==> MayChange(s, key, mask, signers)
  {
    StorableExactly(s, key, mask);
    CheckMeaning(s.membership, signers);
    NarrowingSigners(s.membership, signers);
  }

  /** When each instruction is accepted. */
  lemma AcceptedExactly(s: Issuer, step: Step)
    requires Kept(s)
    ensures Apply(s, step).Ok? <==>
      match step
      case Raise(nonce, term, action, proposer) =>
        && nonce !in s.proposals && MemberHas(s.membership, proposer, AUTHORISING) && 3600 <= term <= 2_592_000
        && (action.ProposeDelegation? ==> MayBeStored(s, action.operationalKey, action.mask))
      case Approve(nonce, approver) =>
        && IsLive(s, nonce) && MemberHas(s.membership, approver, AUTHORISING)
        && approver !in s.proposals[nonce].proposal.approvals && |s.proposals[nonce].proposal.approvals| < 8
      case Execute(nonce, listed, permitted) => MayExecute(s, nonce, listed, permitted)
      case Close(nonce, member) =>
        nonce in s.proposals && !IsLive(s, nonce) && MemberHas(s.membership, member, AUTHORISING)
      case ChangeDelegation(key, mask, signers) => MayChange(s, key, mask, signers)
      case ChangeMembership(_) => true
      case Tick(_) => true
  {
    match step
    case Raise(_, _, action, _) =>
      if action.ProposeDelegation? { StorableExactly(s, action.operationalKey, action.mask); }
    case Execute(nonce, listed, permitted) => ExecutedExactly(s, nonce, listed, permitted);
    case ChangeDelegation(key, mask, signers) => ChangedExactly(s, key, mask, signers);
    case _ =>
  }

  /** Whose word an instruction stands on. */
  function SpeakersOf(s: Issuer, step: Step): seq<Key> {
    match step
    case Raise(_, _, _, proposer) => [proposer]
    case Approve(_, approver) => [approver]
    case Execute(nonce, _, _) => if nonce in s.proposals then s.proposals[nonce].proposal.approvals else []
    case Close(_, member) => [member]
    case ChangeDelegation(_, _, signers) => signers
    case _ => []
  }

  /** The key and the mask a step would leave: those named, by the step itself or by the proposal it executes. */
  function Wanted(s: Issuer, step: Step): (Key, bv8) {
    match step
    case Raise(_, _, ProposeDelegation(key, mask), _) => (key, mask)
    case _ => if Named(s, step).Some? then Named(s, step).value else (s.operationalKey, s.mask)
  }

  /** A refusal is true: what its error says is so. */
  ghost predicate IsSo(s: Issuer, step: Step, error: ForgeError) {
    var speakers := SpeakersOf(s, step);
    var (key, mask) := Wanted(s, step);
    match error
    case NotAuthorising => !AllAuthorise(s.membership, speakers)
    case NotAnAdmin => forall w :: w in speakers ==> !MemberHas(s.membership, w, ADMIN)
    case Duplicate => if step.Approve? then AlreadySigned(s, step.nonce, step.approver) else !Distinct(speakers)
    case QuorumShort => |speakers| < s.membership.quorumN
    case TermOutOfRange => step.Raise? && !(3600 <= step.term <= 2_592_000)
    case DelegationInvalid => key == 0 || IsMember(s.membership, key) || mask & 0xF8 != 0
    case DelegationUnchanged => (key, mask) == (s.operationalKey, s.mask)
    case DelegationChangedSinceProposal =>
      && step.Execute? && step.nonce in s.proposals && s.proposals[step.nonce].proposal.action.SetDelegation?
      && var action := s.proposals[step.nonce].proposal.action;
         (action.previousKey, action.previousMask) != (s.operationalKey, s.mask)
    case AddressTaken => step.Raise? && step.nonce in s.proposals
    case NoSuchProposal => (step.Approve? || step.Execute? || step.Close?) && step.nonce !in s.proposals
    case AlreadyExecuted =>
      (step.Approve? || step.Execute?) && step.nonce in s.proposals && s.proposals[step.nonce].proposal.executedAt != 0
    case Expired =>
      (step.Approve? || step.Execute?) && step.nonce in s.proposals && s.now > s.proposals[step.nonce].proposal.expiresAt
    case StillLive => step.Close? && IsLive(s, step.nonce)
    case ApprovalsFull => step.Approve? && step.nonce in s.proposals && |s.proposals[step.nonce].proposal.approvals| >= 8
    case ApproversNotListed =>
      step.Execute? && step.nonce in s.proposals && step.listed != s.proposals[step.nonce].proposal.approvals
    case ActionRefused => step.Execute? && !step.permitted
  }

  predicate AlreadySigned(s: Issuer, nonce: nat, wallet: Key) {
    nonce in s.proposals && wallet in s.proposals[nonce].proposal.approvals
  }

  lemma ExecuteRefusalIsTrue(s: Issuer, step: Step)
    requires step.Execute? && Apply(s, step).Err?
    ensures IsSo(s, step, Apply(s, step).error)
  {
    if step.nonce in s.proposals {
      CheckFromMeaning(s.membership, s.proposals[step.nonce].proposal.approvals, 0);
      ListedExactly(step.listed, s.proposals[step.nonce].proposal.approvals);
    }
  }

  lemma ChangeRefusalIsTrue(s: Issuer, step: Step)
    requires step.ChangeDelegation? && Apply(s, step).Err?
    ensures IsSo(s, step, Apply(s, step).error)
  {
    CheckFromMeaning(s.membership, step.signers, 0);
    CheckFromMeaning(s.membership.(quorumN := 0), step.signers, 0);
    forall w ensures MemberHas(s.membership.(quorumN := 0), w, AUTHORISING) <==> MemberHas(s.membership, w, AUTHORISING) {}
  }

  /** Whatever is refused is refused for a reason that is so. */
  lemma RefusalIsTrue(s: Issuer, step: Step)
    requires Apply(s, step).Err?
    ensures IsSo(s, step, Apply(s, step).error)
  {
    match step
    case Execute(_, _, _) => ExecuteRefusalIsTrue(s, step);
    case ChangeDelegation(_, _, _) => ChangeRefusalIsTrue(s, step);
    case _ =>
  }

  /** What each accepted instruction leaves behind; of the other proposals it leaves every one as it is. */
  lemma AcceptedIsDone(s: Issuer, step: Step)
    requires Apply(s, step).Ok?
    ensures
      var t := Next(s, step);
      && (forall n :: (n in s.proposals || n in t.proposals) && n != Touched(step) ==>
            n in s.proposals && n in t.proposals && t.proposals[n] == s.proposals[n])
      && (!step.ChangeMembership? ==> t.membership == s.membership)
      && t.now == s.now + (if step.Tick? then step.seconds else 0)
      && t.raises == s.raises + (if step.Raise? then 1 else 0)
      && |t.executions| == |s.executions| + (if step.Execute? then 1 else 0)
      && match step
         case Raise(nonce, term, _, proposer) =>
           && nonce in t.proposals && t.proposals[nonce].serial == s.raises
           && t.proposals[nonce].proposal.approvals == [proposer] && t.proposals[nonce].proposal.executedAt == 0
           && t.proposals[nonce].proposal.expiresAt == s.now + term
         case Approve(nonce, approver) =>
           && nonce in t.proposals
           && t.proposals[nonce].proposal.approvals == s.proposals[nonce].proposal.approvals + [approver]
         case Execute(nonce, _, _) => nonce in t.proposals && t.proposals[nonce].proposal.executedAt == s.now
         case Close(nonce, _) => nonce !in t.proposals
         case ChangeMembership(m) => t.membership == m
         case _ => true
  {
  }

  /** The one proposal an instruction is about, if any. */
  function Touched(step: Step): int {
    match step
    case Raise(nonce, _, _, _) => nonce
    case Approve(nonce, _) => nonce
    case Execute(nonce, _, _) => nonce
    case Close(nonce, _) => nonce
    case _ => -1
  }

  /** The key and the mask an accepted step names, if it names any. */
  function Named(s: Issuer, step: Step): Option<(Key, bv8)> {
    match step
    case ChangeDelegation(key, mask, _) => Some((key, mask))
    case Execute(nonce, _, _) =>
      if nonce in s.proposals && s.proposals[nonce].proposal.action.SetDelegation? then
        Some((s.proposals[nonce].proposal.action.operationalKey, s.proposals[nonce].proposal.action.mask))
      else None
    case _ => None
  }

  /** The step was accepted, named this key and mask, and nothing that came after it in the run was accepted and named another. */
  ghost predicate NamedLast(s: Issuer, steps: seq<Step>, i: nat, key: Key, mask: bv8) {
    && i < |steps| && Apply(Run(s, steps[..i]), steps[i]).Ok? && Named(Run(s, steps[..i]), steps[i]) == Some((key, mask))
    && forall j :: i < j < |steps| ==> !NamesAt(s, steps, j)
  }

  ghost predicate NamesAt(s: Issuer, steps: seq<Step>, i: nat)
    requires i < |steps|
  {
    Apply(Run(s, steps[..i]), steps[i]).Ok? && Named(Run(s, steps[..i]), steps[i]).Some?
  }

  lemma StepNames(s: Issuer, step: Step)
    ensures
      var t := Next(s, step);
      (t.operationalKey, t.mask)
      == if Apply(s, step).Ok? && Named(s, step).Some? then Named(s, step).value else (s.operationalKey, s.mask)
  {
  }

  /** The delegation is what the last accepted change of the run named, or there was none and it is what it was. */
  ghost predicate LastNamed(s: Issuer, steps: seq<Step>, key: Key, mask: bv8) {
    || (exists i: nat :: NamedLast(s, steps, i, key, mask))
    || (key == s.operationalKey && mask == s.mask && forall j :: 0 <= j < |steps| ==> !NamesAt(s, steps, j))
  }

  lemma NotNamedHere(s: Issuer, steps: seq<Step>, n: nat, key: Key, mask: bv8)
    requires |steps| == n + 1 && LastNamed(s, steps[..n], key, mask) && !NamesAt(s, steps, n)
    ensures LastNamed(s, steps, key, mask)
  {
    forall j | 0 <= j < n ensures NamesAt(s, steps, j) <==> NamesAt(s, steps[..n], j) { PrefixOfPrefix(steps, n, j); }
    if i: nat :| NamedLast(s, steps[..n], i, key, mask) {
      PrefixOfPrefix(steps, n, i);
      assert NamedLast(s, steps, i, key, mask);
    }
  }

  /** The delegation is at any moment what the last accepted change named, key and mask, and without a change what it was. */
  lemma {:induction false} DelegationIsLastNamed(s: Issuer, steps: seq<Step>)
    ensures LastNamed(s, steps, Run(s, steps).operationalKey, Run(s, steps).mask)
  {
    if steps != [] {
      var n := |steps| - 1;
      var before, t := Run(s, steps[..n]), Run(s, steps);
      DelegationIsLastNamed(s, steps[..n]);
      StepNames(before, steps[n]);
      if NamesAt(s, steps, n) {
        assert NamedLast(s, steps, n, t.operationalKey, t.mask);
      } else {
        NotNamedHere(s, steps, n, before.operationalKey, before.mask);
      }
    }
  }

  // ─── Who raised, who signed ────────────────────────────────────────────────

  /** At this step the proposal was raised: by its first signer, for the term and the action asked for, a delegation from what it then was. */
  ghost predicate RaisedAt(s: Issuer, steps: seq<Step>, i: nat, r: Raised) {
    && i < |steps| && steps[i].Raise? && Apply(Run(s, steps[..i]), steps[i]).Ok?
    && var before := Run(s, steps[..i]);
       && r.serial == before.raises && r.proposal.expiresAt == before.now + steps[i].term
       && |r.proposal.approvals| > 0 && r.proposal.approvals[0] == steps[i].proposer
       && r.proposal.action == match steps[i].action
                               case ProposeTokenAction(digest) => TokenAction(digest)
                               case ProposeDelegation(key, mask) => SetDelegation(before.operationalKey, before.mask, key, mask)
  }

  /** At this step the wallet itself approved the proposal of this raise, a member who may. */
  ghost predicate ApprovedAt(s: Issuer, steps: seq<Step>, i: nat, serial: nat, wallet: Key) {
    && i < |steps| && steps[i].Approve? && steps[i].approver == wallet
    && var before := Run(s, steps[..i]);
       && steps[i].nonce in before.proposals && before.proposals[steps[i].nonce].serial == serial
       && MemberHas(before.membership, wallet, AUTHORISING)
  }

  ghost predicate GaveApproval(s: Issuer, steps: seq<Step>, serial: nat, wallet: Key) {
    exists i: nat :: ApprovedAt(s, steps, i, serial, wallet)
  }

  /** Raised in this run, and signed after the proposer only by wallets that approved it in this run. */
  ghost predicate Consented(s: Issuer, steps: seq<Step>, r: Raised) {
    && (exists i: nat :: RaisedAt(s, steps, i, r))
    && forall k :: 1 <= k < |r.proposal.approvals| ==> GaveApproval(s, steps, r.serial, r.proposal.approvals[k])
  }

  lemma ConsentStays(s: Issuer, steps: seq<Step>, n: nat, r: Raised, q: Raised)
    requires n <= |steps| && Consented(s, steps[..n], r)
    requires q == r.(proposal := r.proposal.(executedAt := q.proposal.executedAt))
    ensures Consented(s, steps, q)
  {
    var i: nat :| RaisedAt(s, steps[..n], i, r);
    PrefixOfPrefix(steps, n, i);
    assert RaisedAt(s, steps, i, q);
    forall k | 1 <= k < |q.proposal.approvals| ensures GaveApproval(s, steps, q.serial, q.proposal.approvals[k]) {
      assert GaveApproval(s, steps[..n], r.serial, r.proposal.approvals[k]);
      var j: nat :| ApprovedAt(s, steps[..n], j, r.serial, r.proposal.approvals[k]);
      PrefixOfPrefix(steps, n, j);
      assert ApprovedAt(s, steps, j, q.serial, q.proposal.approvals[k]);
    }
  }

  lemma ConsentByApproval(s: Issuer, steps: seq<Step>, n: nat, r: Raised, q: Raised)
    requires |steps| == n + 1 && Consented(s, steps[..n], r) && steps[n].Approve?
    requires ApprovedAt(s, steps, n, r.serial, steps[n].approver)
    requires q == r.(proposal := r.proposal.(approvals := r.proposal.approvals + [steps[n].approver]))
    ensures Consented(s, steps, q)
  {
    ConsentStays(s, steps, n, r, r);
    var i: nat :| RaisedAt(s, steps, i, r);
    assert RaisedAt(s, steps, i, q);
    forall k | 1 <= k < |q.proposal.approvals| ensures GaveApproval(s, steps, q.serial, q.proposal.approvals[k]) {
      if k < |r.proposal.approvals| {
        assert GaveApproval(s, steps, r.serial, r.proposal.approvals[k]);
      }
    }
  }

  /** What one instruction makes of a proposal: nothing, one more signature, the mark of its execution, or a new one. */
  lemma ProposalWritten(s: Issuer, step: Step, n: nat)
    requires n in Next(s, step).proposals
    ensures
      var q := Next(s, step).proposals[n];
      || (n in s.proposals && q == s.proposals[n])
      || (&& step.Approve? && step.nonce == n && n in s.proposals && MemberHas(s.membership, step.approver, AUTHORISING)
          && var p := s.proposals[n].proposal;
             q == s.proposals[n].(proposal := p.(approvals := p.approvals + [step.approver])))
      || (&& step.Execute? && step.nonce == n && n in s.proposals
          && q == s.proposals[n].(proposal := s.proposals[n].proposal.(executedAt := s.now)))
      || (step.Raise? && step.nonce == n && Apply(s, step).Ok? && q.serial == s.raises)
  {
  }

  /** No proposal of a run is on anyone's behalf: it is what its first signer raised, and every other signature was given by its wallet. */
  lemma {:induction false} NobodySignsForAnother(s: Issuer, steps: seq<Step>, nonce: nat)
    requires nonce in Run(s, steps).proposals && Run(s, steps).proposals[nonce].serial >= s.raises
    requires forall n :: n in s.proposals ==> s.proposals[n].serial < s.raises
    ensures Consented(s, steps, Run(s, steps).proposals[nonce])
  {
    if steps != [] {
      var n := |steps| - 1;
      var before, q := Run(s, steps[..n]), Run(s, steps).proposals[nonce];
      ProposalWritten(before, steps[n], nonce);
      if steps[n].Raise? && steps[n].nonce == nonce && Apply(before, steps[n]).Ok? {
        assert RaisedAt(s, steps, n, q);
      } else {
        NobodySignsForAnother(s, steps[..n], nonce);
        var r := before.proposals[nonce];
        if q.proposal.approvals == r.proposal.approvals {
          ConsentStays(s, steps, n, r, q);
        } else {
          ConsentByApproval(s, steps, n, r, q);
        }
      }
    }
  }

  /** At this step this was executed, with everything as it stood. */
  ghost predicate ExecutedAt(s: Issuer, steps: seq<Step>, i: nat, e: Execution) {
    && i < |steps| && steps[i].Execute?
    && var before := Run(s, steps[..i]);
       && steps[i].nonce in before.proposals
       && e == Execution(before.proposals[steps[i].nonce].serial, before.now, before.proposals[steps[i].nonce].proposal,
                         before.membership, before.operationalKey, before.mask)
       && steps[i].nonce in Run(s, steps[..i + 1]).proposals
       && Run(s, steps[..i + 1]).proposals[steps[i].nonce].proposal.executedAt == before.now
  }

  /** And every execution of a run was asked for at some step of it. */
  lemma {:induction false} ExecutionsWereAsked(s: Issuer, steps: seq<Step>, e: Execution)
    requires e in Run(s, steps).executions && e !in s.executions
    ensures exists i :: ExecutedAt(s, steps, i, e)
  {
    if steps != [] {
      var n := |steps| - 1;
      var before := Run(s, steps[..n]);
      assert steps[..n + 1] == steps;
      if e in before.executions {
        ExecutionsWereAsked(s, steps[..n], e);
        var i :| ExecutedAt(s, steps[..n], i, e);
        PrefixOfPrefix(steps, n, i);
        assert steps[..n][..i + 1] == steps[..i + 1];
        assert ExecutedAt(s, steps, i, e);
      } else {
        assert Apply(before, steps[n]).Ok? && steps[n].Execute?;
        assert ExecutedAt(s, steps, n, e);
      }
    }
  }

  // ─── The delegation only narrows between quorum changes ────────────────────

  /** A step that changed the delegation on the authority of the quorum: a proposal, or any immediate change but a narrowing. */
  predicate IsQuorumChange(s: Issuer, step: Step) {
    Apply(s, step).Ok?
    && match step
       case Execute(nonce, _, _) => s.proposals[nonce].proposal.action.SetDelegation?
       case ChangeDelegation(key, mask, _) => !IsNarrowing(s, key, mask)
       case _ => false
  }

  ghost predicate NoQuorumChange(s: Issuer, steps: seq<Step>) {
    forall i :: 0 <= i < |steps| ==> !IsQuorumChange(Run(s, steps[..i]), steps[i])
  }

  lemma SubsetTransitive(a: bv8, b: bv8, c: bv8)
    requires Subset(a, b) && Subset(b, c)
    ensures Subset(a, c)
  {
  }

  lemma OtherStepsNarrow(s: Issuer, step: Step)
    requires !IsQuorumChange(s, step)
    ensures Next(s, step).operationalKey == s.operationalKey && Subset(Next(s, step).mask, s.mask)
  {
    assert Subset(s.mask, s.mask);
  }

  /** Between two quorum changes the key is constant and the mask only loses bits. */
  lemma {:induction false} DelegationOnlyNarrows(s: Issuer, steps: seq<Step>)
    requires NoQuorumChange(s, steps)
    ensures Run(s, steps).operationalKey == s.operationalKey && Subset(Run(s, steps).mask, s.mask)
  {
    if steps == [] {
      assert Subset(s.mask, s.mask);
    } else {
      var n := |steps| - 1;
      var before := steps[..n];
      assert forall i :: 0 <= i < n ==> before[..i] == steps[..i] && before[i] == steps[i];
      DelegationOnlyNarrows(s, before);
      OtherStepsNarrow(Run(s, before), steps[n]);
      SubsetTransitive(Run(s, steps).mask, Run(s, before).mask, s.mask);
    }
  }

  /** Whose signatures a change of the delegation stands on. */
  function SignersOf(step: Step): seq<Key> {
    match step
    case Execute(_, listed, _) => listed
    case ChangeDelegation(_, _, signers) => signers
    case _ => []
  }

  /** The step changes the delegation, signed by the quorum as it stood, to one that covers this key and mask. */
  ghost predicate GivenByQuorum(s: Issuer, step: Step, key: Key, mask: bv8) {
    IsQuorumChange(s, step) && SignedByQuorum(s, SignersOf(step)) && Covers(Next(s, step), key, mask)
  }

  /** At this step of the run. */
  ghost predicate GivenAt(s: Issuer, steps: seq<Step>, i: nat, key: Key, mask: bv8) {
    i < |steps| && GivenByQuorum(Run(s, steps[..i]), steps[i], key, mask)
  }

  lemma QuorumChangeAuthorised(s: Issuer, step: Step)
    requires IsQuorumChange(s, step)
    ensures SignedByQuorum(s, SignersOf(step))
    ensures step.Execute? ==> step.listed == s.proposals[step.nonce].proposal.approvals
  {
    if step.Execute? { assert step.listed == s.proposals[step.nonce].proposal.approvals; }
    CheckMeaning(s.membership, SignersOf(step));
  }

  /** A delegation at least as wide, under the same key. */
  predicate Covers(s: Issuer, key: Key, mask: bv8) {
    s.operationalKey == key && Subset(mask, s.mask)
  }

  lemma CoveredBefore(s: Issuer, step: Step, key: Key, mask: bv8)
    requires Covers(Next(s, step), key, mask) && !IsQuorumChange(s, step)
    ensures Covers(s, key, mask)
  {
    OtherStepsNarrow(s, step);
    SubsetTransitive(mask, Next(s, step).mask, s.mask);
  }

  /** A delegation lost is regained only through a change that gave it back, signed by the quorum of its moment. */
  lemma {:induction false} RegainedByQuorum(s: Issuer, steps: seq<Step>, key: Key, mask: bv8)
    requires !Covers(s, key, mask) && Covers(Run(s, steps), key, mask)
    ensures exists i :: GivenAt(s, steps, i, key, mask)
  {
    var n := |steps| - 1;
    if IsQuorumChange(Run(s, steps[..n]), steps[n]) {
      QuorumChangeAuthorised(Run(s, steps[..n]), steps[n]);
      assert GivenAt(s, steps, n, key, mask);
    } else {
      CoveredBefore(Run(s, steps[..n]), steps[n], key, mask);
      RegainedByQuorum(s, steps[..n], key, mask);
      var i :| GivenAt(s, steps[..n], i, key, mask);
      PrefixOfPrefix(steps, n, i);
      assert GivenAt(s, steps, i, key, mask);
    }
  }

  /**
   * A revocation is safe from grants raised before it. Once the delegation no longer covers what the
   * proposal was raised against, the proposal executes only after a later change gave that
   * delegation back, signed by the quorum as it stood then.
   */
  lemma OvertakenGrantNeedsQuorum(s: Issuer, steps: seq<Step>, nonce: nat, listed: seq<Key>, permitted: bool)
    requires nonce in Run(s, steps).proposals
    requires Run(s, steps).proposals[nonce].proposal.action.SetDelegation?
    requires
      var action := Run(s, steps).proposals[nonce].proposal.action;
      !Covers(s, action.previousKey, action.previousMask)
    requires ExecuteStep(Run(s, steps), nonce, listed, permitted).Ok?
    ensures
      var action := Run(s, steps).proposals[nonce].proposal.action;
      exists i :: GivenAt(s, steps, i, action.previousKey, action.previousMask)
  {
    var t := Run(s, steps);
    var action := t.proposals[nonce].proposal.action;
    assert t.operationalKey == action.previousKey && t.mask == action.previousMask;
    assert Subset(t.mask, t.mask);
    RegainedByQuorum(s, steps, action.previousKey, action.previousMask);
  }
}
