/** How an issuer comes to be (programs/issuer-forge/src/instructions/initialize_issuer.rs) and what holds of it from then on. */
module IssuerStart {
  import opened Common
  import opened Ordering
  import opened Quorum
  import opened Proposals
  import opened IssuerMachine

  const MIN_QUORUM := 2

  datatype StartError =
    | TooFewMembers
    | TooManyMembers
    | MemberWithoutRole
    | UnknownRole
    | AttestorHoldsOtherRoles
    | DuplicateMember
    | QuorumTooSmall
    | QuorumExceedsSigners
    | MissingOperationalKey
    | UndelegatablePower
    | OperationalKeyIsAMember
    | FounderNotAnAdmin

  datatype Founding = Founding(members: seq<Member>, quorumN: nat, operationalKey: Key, mask: bv8, founder: Key)

  /** The walk over the rows from `index` on: the first fault met. */
  function FaultFrom(members: seq<Member>, index: nat): Option<StartError>
    requires index <= |members|
    decreases |members| - index
  {
    if index == |members| then None
    else
      var member := members[index];
      if member.roles == 0 then Some(MemberWithoutRole)
      else if !Subset(member.roles, ALL_ROLES) then Some(UnknownRole)
      else if HasRole(member.roles, ATTESTOR) && member.roles != ATTESTOR then Some(AttestorHoldsOtherRoles)
      else if exists i :: 0 <= i < index && members[i].wallet == member.wallet then Some(DuplicateMember)
      else FaultFrom(members, index + 1)
  }

  function MembersFault(members: seq<Member>): Option<StartError> {
    if |members| < MIN_QUORUM then Some(TooFewMembers)
    else if |members| > MAX_MEMBERS then Some(TooManyMembers)
    else FaultFrom(members, 0)
  }

  function AuthorisingRows(members: seq<Member>): nat {
    if members == [] then 0
    else (if HasRole(members[0].roles, AUTHORISING) then 1 else 0) + AuthorisingRows(members[1..])
  }

  function QuorumFault(quorumN: nat, members: seq<Member>): Option<StartError> {
    if quorumN < MIN_QUORUM then Some(QuorumTooSmall)
    else if quorumN > AuthorisingRows(members) then Some(QuorumExceedsSigners)
    else None
  }

  function DelegationFault(operationalKey: Key, mask: bv8, m: Membership): Option<StartError> {
    if operationalKey == DEFAULT_KEY then Some(MissingOperationalKey)
    else if !Subset(mask, DELEGATION_ALL) then Some(UndelegatablePower)
    else if IsMember(m, operationalKey) then Some(OperationalKeyIsAMember)
    else None
  }

  /** The account has eight rows; those behind the members are free. */
  function Rows(members: seq<Member>): (r: seq<Member>)
    requires |members| <= MAX_MEMBERS
    ensures |r| == 8
  {
    members + seq(MAX_MEMBERS - |members|, _ => Member(DEFAULT_KEY, 0))
  }

  function InitializeIssuer(f: Founding, now: int): Result<Issuer, StartError> {
    var passed := Membership(f.members, f.quorumN);
    var members := MembersFault(f.members);
    var quorum := QuorumFault(f.quorumN, f.members);
    var delegation := DelegationFault(f.operationalKey, f.mask, passed);
    if members.Some? then Err(members.value)
    else if quorum.Some? then Err(quorum.value)
    else if delegation.Some? then Err(delegation.value)
    else if !MemberHas(passed, f.founder, ADMIN) then Err(FounderNotAnAdmin)
    else Ok(Issuer(now, Membership(Rows(f.members), f.quorumN), f.operationalKey, f.mask, map[], 0, []))
  }

  // ─── Who may found ─────────────────────────────────────────────────────────

  /** An attestor and nothing else, or some of the other known roles. */
  predicate SoundRoles(roles: bv8) {
    roles == ATTESTOR || (roles != 0 && Subset(roles, ADMIN | COMPLIANCE | OBSERVER))
  }

  predicate DistinctWallets(members: seq<Member>) {
    forall i, j :: 0 <= i < j < |members| ==> members[i].wallet != members[j].wallet
  }

  /** The role masks a member may have, and the bits asked for. */
  lemma SoundRolesAre(roles: bv8)
    ensures SoundRoles(roles) <==> roles in {1, 2, 3, 4, 8, 9, 10, 11}
    ensures HasRole(roles, ADMIN) <==> roles & 1 != 0
    ensures HasRole(roles, AUTHORISING) <==> roles & 3 != 0
    ensures HasRole(roles, COMPLIANCE) <==> roles & 2 != 0
    ensures HasRole(roles, ATTESTOR) <==> roles & 4 != 0
    ensures HasRole(roles, OBSERVER) <==> roles & 8 != 0
  {
  }

  lemma SoundRolesPass(roles: bv8)
    ensures SoundRoles(roles) <==>
            roles != 0 && Subset(roles, ALL_ROLES) && (HasRole(roles, ATTESTOR) ==> roles == ATTESTOR)
  {
  }

  lemma {:induction false} FaultFromMeaning(members: seq<Member>, index: nat)
    requires index <= |members| && DistinctWallets(members[..index])
    requires forall i :: 0 <= i < index ==> SoundRoles(members[i].roles)
    ensures FaultFrom(members, index).None? <==>
            DistinctWallets(members) && forall i :: 0 <= i < |members| ==> SoundRoles(members[i].roles)
    decreases |members| - index
  {
    if index == |members| {
      assert members[..index] == members;
    } else {
      SoundRolesPass(members[index].roles);
      if SoundRoles(members[index].roles) && forall i :: 0 <= i < index ==> members[i].wallet != members[index].wallet {
        FaultFromMeaning(members, index + 1);
      }
    }
  }

  lemma {:induction false} RowsAreSigners(members: seq<Member>)
    requires DistinctWallets(members) && forall i :: 0 <= i < |members| ==> members[i].roles != 0
    ensures AuthorisingRows(members) == |AuthorisingIn(members)|
  {
    if members != [] {
      RowsAreSigners(members[1..]);
      assert forall i :: 0 <= i < |members[1..]| ==> members[1..][i] == members[i + 1];
      assert members[0].wallet !in AuthorisingIn(members[1..]);
    }
  }

  lemma FreeRowsAreNobody(members: seq<Member>, quorumN: nat, wallet: Key, mask: bv8)
    requires |members| <= MAX_MEMBERS
    ensures MemberHas(Membership(members, quorumN), wallet, mask) <==> MemberHas(Membership(Rows(members), quorumN), wallet, mask)
    ensures IsMember(Membership(members, quorumN), wallet) <==> IsMember(Membership(Rows(members), quorumN), wallet)
  {
    var rows := Rows(members);
    assert forall i :: 0 <= i < |members| ==> rows[i] == members[i];
    assert forall i :: |members| <= i < |rows| ==> rows[i].roles == 0;
    if MemberHas(Membership(members, quorumN), wallet, mask) {
      var i :| 0 <= i < |members| && members[i].roles != 0 && members[i].wallet == wallet && HasRole(members[i].roles, mask);
      assert rows[i].wallet == wallet;
    }
    if IsMember(Membership(members, quorumN), wallet) {
      var i :| 0 <= i < |members| && members[i].roles != 0 && members[i].wallet == wallet;
      assert rows[i].wallet == wallet;
    }
  }

  /** What an issuer must bring: sound members, a threshold they can reach, and a key that is none of them. */
  ghost predicate Sound(f: Founding) {
    var m := Membership(f.members, f.quorumN);
    && 2 <= |f.members| <= 8
    && DistinctWallets(f.members)
    && (forall i :: 0 <= i < |f.members| ==> SoundRoles(f.members[i].roles))
    && 2 <= f.quorumN <= |Authorising(m)|
    && DelegationValid(m, f.operationalKey, f.mask)
    && MemberHas(m, f.founder, ADMIN)
  }

  /** An issuer comes to be exactly on a sound founding. */
  lemma FoundedExactly(f: Founding, now: int)
    ensures InitializeIssuer(f, now).Ok? <==> Sound(f)
  {
    if MIN_QUORUM <= |f.members| <= MAX_MEMBERS {
      FaultFromMeaning(f.members, 0);
      if MembersFault(f.members).None? { RowsAreSigners(f.members); }
    }
  }

  /** A founding that is refused is refused for a fault that is there. */
  lemma FoundingRefusalIsTrue(f: Founding, now: int)
    requires InitializeIssuer(f, now).Err?
    ensures
      var m := Membership(f.members, f.quorumN);
      match InitializeIssuer(f, now).error
      case TooFewMembers => |f.members| < 2
      case TooManyMembers => |f.members| > 8
      case MemberWithoutRole => exists i :: 0 <= i < |f.members| && f.members[i].roles == 0
      case UnknownRole => exists i :: 0 <= i < |f.members| && f.members[i].roles & 0xF0 != 0
      case AttestorHoldsOtherRoles =>
        exists i :: 0 <= i < |f.members| && f.members[i].roles & 4 != 0 && f.members[i].roles != 4
      case DuplicateMember => !DistinctWallets(f.members)
      case QuorumTooSmall => f.quorumN < 2
      case QuorumExceedsSigners => f.quorumN > |Authorising(m)|
      case MissingOperationalKey => f.operationalKey == 0
      case UndelegatablePower => f.mask & 0xF8 != 0
      case OperationalKeyIsAMember => IsMember(m, f.operationalKey)
      case FounderNotAnAdmin => !MemberHas(m, f.founder, ADMIN)
  {
    if 2 <= |f.members| <= 8 {
      FaultIsThere(f.members, 0);
      FaultFromMeaning(f.members, 0);
      if MembersFault(f.members).None? { RowsAreSigners(f.members); }
    }
  }

  lemma {:induction false} FaultIsThere(members: seq<Member>, index: nat)
    requires index <= |members|
    ensures
      match FaultFrom(members, index)
      case None => true
      case Some(MemberWithoutRole) => exists i :: 0 <= i < |members| && members[i].roles == 0
      case Some(UnknownRole) => exists i :: 0 <= i < |members| && members[i].roles & 0xF0 != 0
      case Some(AttestorHoldsOtherRoles) => exists i :: 0 <= i < |members| && members[i].roles & 4 != 0 && members[i].roles != 4
      case Some(fault) => fault == DuplicateMember && !DistinctWallets(members)
    decreases |members| - index
  {
    if index < |members| { FaultIsThere(members, index + 1); }
  }

  // ─── From the founding on ──────────────────────────────────────────────────

  /** What holds of a founded issuer while its membership stays. */
  ghost predicate Founded(s: Issuer, m: Membership) {
    && s.membership == m
    && DelegationValid(m, s.operationalKey, s.mask)
    && forall i :: 0 <= i < |s.executions| ==>
         s.executions[i].membership == m && DelegationValid(m, s.executions[i].key, s.executions[i].mask)
  }

  lemma FoundedStep(s: Issuer, step: Step, m: Membership)
    requires Founded(s, m) && !step.ChangeMembership?
    ensures Founded(Next(s, step), m)
  {
  }

  lemma {:induction false} FoundedRun(s: Issuer, steps: seq<Step>, m: Membership)
    requires Founded(s, m) && forall i :: 0 <= i < |steps| ==> !steps[i].ChangeMembership?
    ensures Founded(Run(s, steps), m)
  {
    if steps != [] {
      FoundedRun(s, steps[..|steps| - 1], m);
      FoundedStep(Run(s, steps[..|steps| - 1]), steps[|steps| - 1], m);
    }
  }

  lemma StartIsFounded(f: Founding, now: int)
    requires now > 0 && InitializeIssuer(f, now).Ok?
    ensures var s := InitializeIssuer(f, now).value;
            && Kept(s) && Founded(s, s.membership)
            && s.proposals == map[] && s.raises == 0 && s.executions == []
            && |s.membership.members| == 8 && s.membership.members[..|f.members|] == f.members
            && s.membership.quorumN == f.quorumN && s.operationalKey == f.operationalKey && s.mask == f.mask && s.now == now
            && MIN_QUORUM <= s.membership.quorumN <= |Authorising(s.membership)|
  {
    FoundedExactly(f, now);
    var s := InitializeIssuer(f, now).value;
    FreeRowsAreNobody(f.members, f.quorumN, f.operationalKey, AUTHORISING);
    forall w ensures w in Authorising(Membership(f.members, f.quorumN)) <==> w in Authorising(s.membership) {
      FreeRowsAreNobody(f.members, f.quorumN, w, AUTHORISING);
    }
    assert Authorising(Membership(f.members, f.quorumN)) == Authorising(s.membership);
  }

  /**
   * In every run from the founding on, while the membership stays: nothing was ever executed on one
   * signature, or with the platform's key among the signatures; that key is never a member and holds
   * no power outside the delegable ones; and the threshold can be reached.
   */
  lemma FoundedRunsKeep(f: Founding, now: int, steps: seq<Step>)
    requires now > 0 && InitializeIssuer(f, now).Ok?
    requires forall i :: 0 <= i < |steps| ==> !steps[i].ChangeMembership?
    ensures
      var t := Run(InitializeIssuer(f, now).value, steps);
      && Kept(t) && t.membership.quorumN <= |Authorising(t.membership)|
      && !IsMember(t.membership, t.operationalKey) && Subset(t.mask, DELEGATION_ALL)
      && forall e :: e in t.executions ==>
           && |e.proposal.approvals| >= 2 && Distinct(e.proposal.approvals)
           && e.key !in e.proposal.approvals && t.operationalKey !in e.proposal.approvals
  {
    StartIsFounded(f, now);
    var s := InitializeIssuer(f, now).value;
    RunKeeps(s, steps);
    FoundedRun(s, steps, s.membership);
    var t := Run(s, steps);
    forall e | e in t.executions
      ensures |e.proposal.approvals| >= MIN_QUORUM && Distinct(e.proposal.approvals)
      ensures e.key !in e.proposal.approvals && t.operationalKey !in e.proposal.approvals
    {
      var i :| 0 <= i < |t.executions| && t.executions[i] == e;
      assert ExecutionOk(t, e);
      SignersAreMembers(e.membership, e.proposal.approvals, e.key);
      SignersAreMembers(e.membership, e.proposal.approvals, t.operationalKey);
    }
  }

  lemma SignersAreMembers(m: Membership, approvals: seq<Key>, key: Key)
    requires AllAuthorise(m, approvals) && !IsMember(m, key)
    ensures key !in approvals
  {
  }
}
