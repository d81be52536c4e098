/** The quorum over the membership of the moment (programs/issuer-forge/src/quorum.rs, state/issuer.rs). */
module Quorum {
  import opened Ordering

  /** A wallet or account address; zero is the default key. */
  type Key = nat

  const DEFAULT_KEY: Key := 0
  const MAX_MEMBERS := 8
  const ADMIN: bv8 := 1
  const COMPLIANCE: bv8 := 2
  const ATTESTOR: bv8 := 4
  const OBSERVER: bv8 := 8
  const ALL_ROLES: bv8 := ADMIN | COMPLIANCE | ATTESTOR | OBSERVER
  const AUTHORISING: bv8 := ADMIN | COMPLIANCE

  datatype Member = Member(wallet: Key, roles: bv8)

  /** The membership and the threshold; a row without roles is a free slot. */
  datatype Membership = Membership(members: seq<Member>, quorumN: nat)

  predicate HasRole(roles: bv8, mask: bv8) { roles & mask != 0 }

  predicate MemberHas(m: Membership, wallet: Key, mask: bv8) {
    exists i :: 0 <= i < |m.members| && m.members[i].roles != 0 && m.members[i].wallet == wallet
                && HasRole(m.members[i].roles, mask)
  }

  datatype QuorumAnswer = QuorumOk | NotAnAuthorisingSigner | DuplicateApproval | QuorumNotReached

  /** The walk over the signatures from `index` on. */
  function CheckFrom(m: Membership, approvals: seq<Key>, index: nat): QuorumAnswer
    requires index <= |approvals|
    decreases |approvals| - index
  {
    if index == |approvals| then if |approvals| >= m.quorumN then QuorumOk else QuorumNotReached
    else if !MemberHas(m, approvals[index], AUTHORISING) then NotAnAuthorisingSigner
    else if approvals[index] in approvals[..index] then DuplicateApproval
    else CheckFrom(m, approvals, index + 1)
  }

  function Check(m: Membership, approvals: seq<Key>): QuorumAnswer {
    CheckFrom(m, approvals, 0)
  }

  ghost predicate AllAuthorise(m: Membership, approvals: seq<Key>) {
    forall w :: w in approvals ==> MemberHas(m, w, AUTHORISING)
  }

  lemma {:induction false} CheckFromMeaning(m: Membership, approvals: seq<Key>, index: nat)
    requires index <= |approvals|
    requires AllAuthorise(m, approvals[..index]) && Distinct(approvals[..index])
    ensures
      match CheckFrom(m, approvals, index)
      case QuorumOk => AllAuthorise(m, approvals) && Distinct(approvals) && |approvals| >= m.quorumN
      case NotAnAuthorisingSigner => !AllAuthorise(m, approvals)
      case DuplicateApproval => !Distinct(approvals)
      case QuorumNotReached => AllAuthorise(m, approvals) && Distinct(approvals) && |approvals| < m.quorumN
    decreases |approvals| - index
  {
    if index == |approvals| {
      assert approvals[..index] == approvals;
    } else if MemberHas(m, approvals[index], AUTHORISING) && approvals[index] !in approvals[..index] {
      assert approvals[..index + 1] == approvals[..index] + [approvals[index]];
      assert forall i :: 0 <= i < index ==> approvals[i] in approvals[..index];
      CheckFromMeaning(m, approvals, index + 1);
    } else if MemberHas(m, approvals[index], AUTHORISING) {
      var i :| 0 <= i < index && approvals[..index][i] == approvals[index];
    }
  }

  /** The signatures are enough exactly when they are distinct, all current authorising members, and reach the threshold. */
  lemma CheckMeaning(m: Membership, approvals: seq<Key>)
    ensures Check(m, approvals) == QuorumOk <==>
            AllAuthorise(m, approvals) && Distinct(approvals) && |approvals| >= m.quorumN
    ensures Distinct(approvals) ==>
              (Check(m, approvals) == NotAnAuthorisingSigner <==> !AllAuthorise(m, approvals))
    ensures Check(m, approvals) == QuorumNotReached <==>
            AllAuthorise(m, approvals) && Distinct(approvals) && |approvals| < m.quorumN
  {
    CheckFromMeaning(m, approvals, 0);
  }

  /** The accounts listed behind the declared ones are the approvers, one by one in their order. */
  predicate RequireListed(listed: seq<Key>, approvals: seq<Key>) {
    |listed| == |approvals| && forall i :: 0 <= i < |listed| ==> listed[i] == approvals[i]
  }

  // ─── Counting members ──────────────────────────────────────────────────────

  /** The wallets that may authorise. */
  function Authorising(m: Membership): (r: set<Key>)
    ensures forall w :: w in r <==> MemberHas(m, w, AUTHORISING)
    ensures |r| <= |m.members|
  {
    AuthorisingIn(m.members)
  }

  function AuthorisingIn(members: seq<Member>): (r: set<Key>)
    ensures forall w :: w in r <==> MemberHas(Membership(members, 0), w, AUTHORISING)
    ensures |r| <= |members|
  {
    if members == [] then {}
    else
      var rest := AuthorisingIn(members[1..]);
      var first := members[0];
      assert forall i :: 0 <= i < |members| - 1 ==> members[1..][i] == members[i + 1];
      assert forall w :: MemberHas(Membership(members[1..], 0), w, AUTHORISING) ==>
               MemberHas(Membership(members, 0), w, AUTHORISING) by {
        forall w | MemberHas(Membership(members[1..], 0), w, AUTHORISING)
          ensures MemberHas(Membership(members, 0), w, AUTHORISING)
        {
          var i :| 0 <= i < |members[1..]| && members[1..][i].roles != 0 && members[1..][i].wallet == w
                   && HasRole(members[1..][i].roles, AUTHORISING);
          assert members[i + 1].wallet == w;
        }
      }
      if first.roles != 0 && HasRole(first.roles, AUTHORISING) then {first.wallet} + rest else rest
  }

  lemma {:induction false} DistinctCount(s: seq<Key>, all: set<Key>)
    requires Distinct(s) && forall w :: w in s ==> w in all
    ensures |s| <= |all|
    ensures |s| == |all| ==> forall w :: w in all ==> w in s
  {
    if s != [] {
      var rest, others := s[1..], all - {s[0]};
      assert s[0] in s;
      forall w | w in rest ensures w in others { assert w in s; }
      DistinctCount(rest, others);
      if |s| == |all| {
        forall w | w in all ensures w in s { if w != s[0] { assert w in others; assert w in rest; } }
      }
    }
  }
}
