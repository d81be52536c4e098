/** Where a proposal stands, as the console shows it (apps/api/src/actions.ts, apps/web/src/compliance/model.ts). */
module ProposalStanding {
  import opened Common
  import opened Ordering
  import opened Quorum
  import opened Proposals

  datatype ProposalState = Open | Ready | Blocked | ExecutedState | ExpiredState

  datatype Standing = Standing(state: ProposalState, required: nat, counted: nat, lapsed: seq<Key>)

  /** The rows the reader passes on: members with a role. */
  function NamedMembers(m: Membership): seq<Member> {
    NamedIn(m.members)
  }

  function NamedIn(members: seq<Member>): seq<Member> {
    if members == [] then []
    else (if members[0].roles != 0 then [members[0]] else []) + NamedIn(members[1..])
  }

  function AuthorisingWallets(members: seq<Member>): (r: seq<Key>) {
    if members == [] then []
    else (if HasRole(members[0].roles, AUTHORISING) then [members[0].wallet] else []) + AuthorisingWallets(members[1..])
  }

  function Lapsed(approvals: seq<Key>, authorising: seq<Key>): (r: seq<Key>)
    ensures |r| <= |approvals|
    ensures forall w :: w in r <==> w in approvals && w !in authorising
    ensures r == [] <==> forall w :: w in approvals ==> w in authorising
  {
    if approvals == [] then []
    else
      assert approvals == [approvals[0]] + approvals[1..];
      var rest := Lapsed(approvals[1..], authorising);
      var r := (if approvals[0] !in authorising then [approvals[0]] else []) + rest;
      assert r == [] || r[0] in r;
      r
  }

  function StandingOf(p: Proposal, m: Membership, now: int): Standing {
    var authorising := AuthorisingWallets(NamedMembers(m));
    var lapsed := Lapsed(p.approvals, authorising);
    var counted := |p.approvals| - |lapsed|;
    var state :=
      if p.executedAt != 0 then ExecutedState
      else if now > p.expiresAt then ExpiredState
      else if |lapsed| > 0 then Blocked
      else if counted >= m.quorumN then Ready
      else Open;
    Standing(state, m.quorumN, counted, lapsed)
  }

  predicate IsFinished(state: ProposalState) { state.ExecutedState? || state.ExpiredState? }

  lemma MemberHasCons(first: Member, rest: seq<Member>, quorumN: nat, wallet: Key)
    ensures MemberHas(Membership([first] + rest, quorumN), wallet, AUTHORISING) <==>
            (first.roles != 0 && first.wallet == wallet && HasRole(first.roles, AUTHORISING))
            || MemberHas(Membership(rest, quorumN), wallet, AUTHORISING)
  {
    var all := [first] + rest;
    assert all[0] == first;
    assert forall i :: 1 <= i < |all| ==> all[i] == rest[i - 1];
    if MemberHas(Membership(rest, quorumN), wallet, AUTHORISING) {
      var i :| 0 <= i < |rest| && rest[i].roles != 0 && rest[i].wallet == wallet && HasRole(rest[i].roles, AUTHORISING);
      assert all[i + 1].wallet == wallet;
    }
  }

  lemma {:induction false} NamedAuthorising(members: seq<Member>, quorumN: nat, wallet: Key)
    ensures wallet in AuthorisingWallets(NamedIn(members)) <==> MemberHas(Membership(members, quorumN), wallet, AUTHORISING)
  {
    if members != [] {
      var rest := members[1..];
      NamedAuthorising(rest, quorumN, wallet);
      MemberHasCons(members[0], rest, quorumN, wallet);
      assert members == [members[0]] + rest;
      if members[0].roles != 0 {
        assert NamedIn(members)[1..] == NamedIn(rest);
      } else {
        assert NamedIn(members) == NamedIn(rest);
      }
    }
  }

  /** The label of a live proposal with distinct approvals is the program's own answer. */
  lemma StandingIsCheck(p: Proposal, m: Membership, now: int)
    requires Live(p, now) == Fine && Distinct(p.approvals)
    ensures StandingOf(p, m, now).state == Ready <==> Check(m, p.approvals) == QuorumOk
    ensures StandingOf(p, m, now).state == Blocked <==> Check(m, p.approvals) == NotAnAuthorisingSigner
    ensures StandingOf(p, m, now).state == Open <==> Check(m, p.approvals) == QuorumNotReached
  {
    CheckMeaning(m, p.approvals);
    forall w ensures w in AuthorisingWallets(NamedMembers(m)) <==> MemberHas(m, w, AUTHORISING) {
      NamedAuthorising(m.members, m.quorumN, w);
    }
    assert m == Membership(m.members, m.quorumN);
  }

  /** The tally: the signatures that still count and those that lapsed are all of them, against the threshold of the moment. */
  lemma TallyAddsUp(p: Proposal, m: Membership, now: int)
    ensures
      var standing := StandingOf(p, m, now);
      && standing.required == m.quorumN && standing.counted + |standing.lapsed| == |p.approvals|
      && (forall w :: w in standing.lapsed <==> w in p.approvals && !MemberHas(m, w, AUTHORISING))
      && (Distinct(p.approvals) ==> Distinct(standing.lapsed))
  {
    forall w ensures w in AuthorisingWallets(NamedMembers(m)) <==> MemberHas(m, w, AUTHORISING) {
      NamedAuthorising(m.members, m.quorumN, w);
    }
    assert m == Membership(m.members, m.quorumN);
    if Distinct(p.approvals) { LapsedDistinct(p.approvals, AuthorisingWallets(NamedMembers(m))); }
  }

  lemma {:induction false} LapsedDistinct(approvals: seq<Key>, authorising: seq<Key>)
    requires Distinct(approvals)
    ensures Distinct(Lapsed(approvals, authorising))
  {
    if approvals != [] {
      LapsedDistinct(approvals[1..], authorising);
      assert forall w :: w in Lapsed(approvals[1..], authorising) ==> w in approvals[1..];
      assert approvals[0] !in approvals[1..];
    }
  }

  // ─── What one session can do next ──────────────────────────────────────────

  datatype NextStep = ApproveWith(signer: Key) | ExecuteWith(signer: Key) | CloseWith(signer: Key) | Wait

  /** The session's wallets that are authorising members, in roster order. */
  function Mine(authorising: seq<Member>, wallets: set<Key>): (r: seq<Key>)
    ensures forall w :: w in r ==> w in wallets
  {
    if authorising == [] then []
    else
      (if HasRole(authorising[0].roles, AUTHORISING) && authorising[0].wallet in wallets then [authorising[0].wallet] else [])
      + Mine(authorising[1..], wallets)
  }

  function FirstUnsigned(mine: seq<Key>, approvals: seq<Key>): (r: Option<Key>)
    ensures r.Some? ==> r.value in mine && r.value !in approvals
    ensures r.None? ==> forall w :: w in mine ==> w in approvals
  {
    if mine == [] then None
    else if mine[0] !in approvals then Some(mine[0])
    else FirstUnsigned(mine[1..], approvals)
  }

  function NextStepOf(p: Proposal, state: ProposalState, authorising: seq<Member>, wallets: set<Key>): NextStep {
    var mine := Mine(authorising, wallets);
    if IsFinished(state) then if mine == [] then Wait else CloseWith(mine[0])
    else if state.Blocked? then Wait
    else if mine == [] then Wait
    else if state.Ready? then ExecuteWith(mine[0])
    else
      var unsigned := FirstUnsigned(mine, p.approvals);
      if unsigned.None? then Wait else ApproveWith(unsigned.value)
  }

  datatype RouteError = NotAuthorisingOnChain | Over | CannotReachQuorum | AlreadyApproved | NoRoom

  /** The approve route's guards on the proposal, in its order. */
  function ApproveGuard(p: Proposal, m: Membership, now: int, approver: Key): Result<(), RouteError> {
    var current := StandingOf(p, m, now);
    if !MemberHas(m, approver, AUTHORISING) then Err(NotAuthorisingOnChain)
    else if IsFinished(current.state) then Err(Over)
    else if current.state.Blocked? then Err(CannotReachQuorum)
    else if approver in p.approvals then Err(AlreadyApproved)
    else if |p.approvals| >= MAX_MEMBERS then Err(NoRoom)
    else Ok(())
  }

  lemma {:induction false} MineAuthorise(members: seq<Member>, wallets: set<Key>)
    ensures forall w :: w in Mine(NamedIn(members), wallets) <==> w in wallets && w in AuthorisingWallets(NamedIn(members))
  {
    if members != [] {
      MineAuthorise(members[1..], wallets);
      if members[0].roles != 0 {
        assert NamedIn(members)[1..] == NamedIn(members[1..]);
      } else {
        assert NamedIn(members) == NamedIn(members[1..]);
      }
    }
  }

  predicate IsMine(member: Member, wallets: set<Key>) {
    member.roles != 0 && HasRole(member.roles, AUTHORISING) && member.wallet in wallets
  }

  /** The first row of the roster that is an authorising member and a wallet of the session. */
  ghost predicate IsFirstMine(members: seq<Member>, wallets: set<Key>, w: Key) {
    exists i :: 0 <= i < |members| && members[i].wallet == w && IsMine(members[i], wallets)
                && forall j :: 0 <= j < i ==> !IsMine(members[j], wallets)
  }

  lemma {:induction false} MineIsFirst(members: seq<Member>, wallets: set<Key>)
    ensures
      var mine := Mine(NamedIn(members), wallets);
      if mine == [] then forall j :: 0 <= j < |members| ==> !IsMine(members[j], wallets)
      else IsFirstMine(members, wallets, mine[0])
  {
    if members != [] {
      var rest := members[1..];
      var mine, others := Mine(NamedIn(members), wallets), Mine(NamedIn(rest), wallets);
      MineIsFirst(rest, wallets);
      if members[0].roles != 0 { assert NamedIn(members)[1..] == NamedIn(rest); } else { assert NamedIn(members) == NamedIn(rest); }
      if !IsMine(members[0], wallets) {
        assert mine == others;
        if others != [] {
          var i :| 0 <= i < |rest| && rest[i].wallet == others[0] && IsMine(rest[i], wallets)
                   && forall j :: 0 <= j < i ==> !IsMine(rest[j], wallets);
          assert members[i + 1] == rest[i];
          assert forall j :: 0 < j < i + 1 ==> members[j] == rest[j - 1];
        }
      }
    }
  }

  /** A wallet of the session that may authorise. */
  ghost predicate MaySign(m: Membership, wallets: set<Key>, w: Key) { w in wallets && w in Authorising(m) }

  /**
   * The step offered, exactly: closing what is finished and executing what is ready, with the first
   * authorising member of the roster among the session's wallets; a signature on what is open, by one
   * of them that has not signed; and waiting only when none of these is there.
   */
  lemma NextStepExactly(p: Proposal, m: Membership, now: int, wallets: set<Key>)
    ensures
      var state := StandingOf(p, m, now).state;
      match NextStepOf(p, state, NamedMembers(m), wallets)
      case CloseWith(w) => IsFinished(state) && MaySign(m, wallets, w) && IsFirstMine(m.members, wallets, w)
      case ExecuteWith(w) => state == Ready && MaySign(m, wallets, w) && IsFirstMine(m.members, wallets, w)
      case ApproveWith(w) => state == Open && MaySign(m, wallets, w) && w !in p.approvals
      case Wait =>
        || state == Blocked || (forall w :: !MaySign(m, wallets, w))
        || (state == Open && forall w :: MaySign(m, wallets, w) ==> w in p.approvals)
  {
    MineAuthorise(m.members, wallets);
    AuthorisingWalletsMembers(m);
    MineIsFirst(m.members, wallets);
    var mine := Mine(NamedMembers(m), wallets);
    assert forall w :: w in mine <==> MaySign(m, wallets, w);
    if mine != [] { assert mine[0] in mine; }
  }

  lemma AuthorisingWalletsMembers(m: Membership)
    ensures forall w :: w in AuthorisingWallets(NamedMembers(m)) <==> w in Authorising(m)
  {
    forall w ensures w in AuthorisingWallets(NamedMembers(m)) <==> MemberHas(m, w, AUTHORISING) {
      NamedAuthorising(m.members, m.quorumN, w);
    }
  }

  /**
   * A signature the screen asks for is one the route takes. The guard on eight approvals is never
   * the reason: while somebody's signature is missing, fewer than eight members have signed.
   */
  lemma OfferedApprovalIsTaken(p: Proposal, m: Membership, now: int, wallets: set<Key>)
    requires |m.members| <= MAX_MEMBERS && Distinct(p.approvals)
    requires NextStepOf(p, StandingOf(p, m, now).state, NamedMembers(m), wallets).ApproveWith?
    ensures
      var signer := NextStepOf(p, StandingOf(p, m, now).state, NamedMembers(m), wallets).signer;
      && ApproveGuard(p, m, now, signer) == Ok(())
      && |p.approvals| < MAX_MEMBERS && WithApproval(p, signer).Ok?
  {
    var current := StandingOf(p, m, now);
    MineAuthorise(m.members, wallets);
    AuthorisingWalletsMembers(m);
    var signer := NextStepOf(p, current.state, NamedMembers(m), wallets).signer;
    assert current.lapsed == [];
    var others := Authorising(m) - {signer};
    forall w | w in p.approvals ensures w in others {}
    DistinctCount(p.approvals, others);
  }

  /** While the threshold can be met at all, every open proposal has a member who is offered a signature. */
  lemma OpenProposalHasASigner(p: Proposal, m: Membership, now: int)
    requires m.quorumN <= |Authorising(m)| && Distinct(p.approvals)
    requires StandingOf(p, m, now).state == Open
    ensures exists w :: w in Authorising(m) && NextStepOf(p, Open, NamedMembers(m), {w}) == ApproveWith(w)
  {
    AuthorisingWalletsMembers(m);
    assert StandingOf(p, m, now).lapsed == [];
    var w := SomeoneUnsigned(Authorising(m), p.approvals);
    MineAuthorise(m.members, {w});
    OfferedAlone(p, NamedMembers(m), w);
  }

  lemma OfferedAlone(p: Proposal, authorising: seq<Member>, w: Key)
    requires w in Mine(authorising, {w}) && w !in p.approvals
    ensures NextStepOf(p, Open, authorising, {w}) == ApproveWith(w)
  {
    assert FirstUnsigned(Mine(authorising, {w}), p.approvals) == Some(w);
  }

  lemma SomeoneUnsigned(all: set<Key>, approvals: seq<Key>) returns (w: Key)
    requires |approvals| < |all|
    ensures w in all && w !in approvals
  {
    if forall w :: w in all ==> w in approvals { SetWithin(all, approvals); }
    w :| w in all && w !in approvals;
  }

  lemma {:induction false} SetWithin(all: set<Key>, s: seq<Key>)
    requires forall w :: w in all ==> w in s
    ensures |all| <= |s|
  {
    if s == [] {
      assert all == {};
    } else {
      SetWithin(all - {s[0]}, s[1..]);
    }
  }
}
