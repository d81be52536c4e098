/** The routes' guards against the program's own (apps/api/src/routes/actions.ts, delegation.ts). */
module ActionRoutes {
  import opened Common
  import opened Ordering
  import opened Quorum
  import opened Proposals
  import opened IssuerMachine
  import opened ProposalStanding

  /** The approve route refuses what the program would refuse, and besides only a proposal that can no longer reach its quorum. */
  lemma ApproveRouteIsProgram(s: Issuer, nonce: nat, approver: Key)
    requires nonce in s.proposals
    ensures
      var p := s.proposals[nonce].proposal;
      ApproveGuard(p, s.membership, s.now, approver) == Ok(()) <==>
      ApproveStep(s, nonce, approver).Ok? && !StandingOf(p, s.membership, s.now).state.Blocked?
  {
  }

  datatype ExecuteError = NotReady(standing: Standing) | DelegationMoved

  /** The execute route for a proposal: ready, and a delegation change only from the delegation it was raised against. */
  function ExecuteGuard(s: Issuer, p: Proposal): Result<(), ExecuteError> {
    var current := StandingOf(p, s.membership, s.now);
    if !current.state.Ready? then Err(NotReady(current))
    else if p.action.SetDelegation? && (s.operationalKey != p.action.previousKey || s.mask != p.action.previousMask)
    then Err(DelegationMoved)
    else Ok(())
  }

  /**
   * What the execute route lets through the program executes, approvers listed as the route lists
   * them, exactly when the action may run at all: a token action by its own checks, a delegation
   * change to a key that is not meanwhile a member's. What the route refuses the program refuses.
   */
  lemma ExecuteRouteIsProgram(s: Issuer, nonce: nat, permitted: bool)
    requires nonce in s.proposals && Distinct(s.proposals[nonce].proposal.approvals)
    ensures
      var p := s.proposals[nonce].proposal;
      ExecuteStep(s, nonce, p.approvals, permitted).Ok? <==>
      ExecuteGuard(s, p) == Ok(()) && (if p.action.SetDelegation? then Target(s, p.action).Ok? else permitted)
  {
    var p := s.proposals[nonce].proposal;
    if Live(p, s.now) == Fine { StandingIsCheck(p, s.membership, s.now); }
  }

  /** The close route offers to close exactly what the program closes for an authorising member. */
  lemma CloseRouteIsProgram(s: Issuer, nonce: nat, member: Key)
    requires nonce in s.proposals && MemberHas(s.membership, member, AUTHORISING)
    ensures IsFinished(StandingOf(s.proposals[nonce].proposal, s.membership, s.now).state) <==>
            CloseStep(s, nonce, member).Ok?
  {
  }

  // ─── Revocation ────────────────────────────────────────────────────────────

  datatype Power = ThawHolder | SetHolderStatus | SettleRedemption

  function BitOf(power: Power): bv8 {
    match power
    case ThawHolder => 1
    case SetHolderStatus => 2
    case SettleRedemption => 4
  }

  predicate HoldsPower(mask: bv8, power: Power) { mask & BitOf(power) != 0 }

  function Removed(named: seq<Power>): bv8 {
    if named == [] then 0 else Removed(named[..|named| - 1]) | BitOf(named[|named| - 1])
  }

  datatype RevokeError = NotHeld(powers: seq<Power>)

  /** The mask a revocation of these powers asks for, unless the key does not hold one of them. */
  function RevokeMask(mask: bv8, named: seq<Power>): Result<bv8, RevokeError> {
    var notHeld := Filter(named, power => !HoldsPower(mask, power));
    if notHeld != [] then Err(NotHeld(notHeld)) else Ok(mask & !Removed(named))
  }

  lemma BitsApart(bits: bv8, power: Power, other: Power)
    ensures HoldsPower(bits | BitOf(power), other) <==> HoldsPower(bits, other) || other == power
  {
    match power
    case ThawHolder => match other { case ThawHolder => case SetHolderStatus => case SettleRedemption => }
    case SetHolderStatus => match other { case ThawHolder => case SetHolderStatus => case SettleRedemption => }
    case SettleRedemption => match other { case ThawHolder => case SetHolderStatus => case SettleRedemption => }
  }

  lemma {:induction false} RemovedHolds(named: seq<Power>, power: Power)
    ensures HoldsPower(Removed(named), power) <==> power in named
  {
    if named != [] {
      var n := |named| - 1;
      RemovedHolds(named[..n], power);
      assert named == named[..n] + [named[n]];
      BitsApart(Removed(named[..n]), named[n], power);
    }
  }

  lemma MaskedHolds(mask: bv8, removed: bv8, power: Power)
    ensures HoldsPower(mask & !removed, power) <==> HoldsPower(mask, power) && !HoldsPower(removed, power)
  {
    match power
    case ThawHolder =>
    case SetHolderStatus =>
    case SettleRedemption =>
  }

  lemma MaskedIsSubset(mask: bv8, removed: bv8)
    ensures Subset(mask & !removed, mask)
  {
  }

  /** A revocation is assembled exactly when the key holds every power named; otherwise those it does not hold are named back. */
  lemma RevocationIsAssembled(mask: bv8, named: seq<Power>)
    ensures RevokeMask(mask, named).Ok? <==> forall power :: power in named ==> HoldsPower(mask, power)
    ensures RevokeMask(mask, named).Err? ==>
              forall power :: power in RevokeMask(mask, named).error.powers <==> power in named && !HoldsPower(mask, power)
  {
    var notHeld := Filter(named, power => !HoldsPower(mask, power));
    if notHeld != [] { assert notHeld[0] in notHeld; }
  }

  /** A revocation takes away exactly the powers it names: never one it does not, and never nothing. */
  lemma RevocationTakesExactly(mask: bv8, named: seq<Power>)
    requires named != [] && RevokeMask(mask, named).Ok?
    ensures
      var after := RevokeMask(mask, named).value;
      Subset(after, mask) && after != mask
      && forall power :: HoldsPower(after, power) <==> HoldsPower(mask, power) && power !in named
  {
    var after := RevokeMask(mask, named).value;
    MaskedIsSubset(mask, Removed(named));
    forall power ensures HoldsPower(after, power) <==> HoldsPower(mask, power) && power !in named {
      RemovedHolds(named, power);
      MaskedHolds(mask, Removed(named), power);
    }
    HeldIfAccepted(mask, named, named[0]);
  }

  lemma HeldIfAccepted(mask: bv8, named: seq<Power>, power: Power)
    requires power in named
    ensures RevokeMask(mask, named).Ok? ==> HoldsPower(mask, power)
  {
    var notHeld := Filter(named, power => !HoldsPower(mask, power));
    assert !HoldsPower(mask, power) ==> power in notHeld;
  }

  /**
   * One admin suffices: the program takes every revocation the route assembles, as long as the
   * delegation is one it accepts at all, and afterwards the key is the same and has lost exactly the
   * powers named.
   */
  lemma RevocationIsTaken(s: Issuer, named: seq<Power>, admin: Key)
    requires named != [] && RevokeMask(s.mask, named).Ok? && MemberHas(s.membership, admin, ADMIN)
    ensures
      var mask := RevokeMask(s.mask, named).value;
      && (Apply(s, ChangeDelegation(s.operationalKey, mask, [admin])).Ok? <==>
          DelegationValid(s.membership, s.operationalKey, mask))
      && (DelegationValid(s.membership, s.operationalKey, mask) ==>
            var t := Next(s, ChangeDelegation(s.operationalKey, mask, [admin]));
            && t.operationalKey == s.operationalKey
            && forall power :: HoldsPower(t.mask, power) <==> HoldsPower(s.mask, power) && power !in named)
  {
    RevocationTakesExactly(s.mask, named);
    AdminAuthorises(s.membership, admin);
    var signers := [admin];
    assert signers[0] == admin;
  }

  lemma AdminAuthorises(m: Membership, admin: Key)
    requires MemberHas(m, admin, ADMIN)
    ensures MemberHas(m, admin, AUTHORISING)
    ensures CheckFrom(m.(quorumN := 0), [admin], 0) == QuorumOk
  {
    var i :| 0 <= i < |m.members| && m.members[i].roles != 0 && m.members[i].wallet == admin
             && HasRole(m.members[i].roles, ADMIN);
    assert HasRole(m.members[i].roles, AUTHORISING);
    assert MemberHas(m.(quorumN := 0), admin, AUTHORISING) by {
      assert m.(quorumN := 0).members[i].wallet == admin;
    }
    assert [admin][..0] == [];
  }
}
