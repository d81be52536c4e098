/** Issuance against the attested reserve (programs/issuer-forge/src/reserve.rs), and the same verdicts for a page (apps/api/src/reserve.ts). */
module Reserve {
  import opened Common
  import opened Quorum

  const MAX_ATTESTATION_MAX_AGE := 90 * 24 * 60 * 60

  datatype Attestation = Attestation(mint: Key, index: nat, amount: nat, attestor: Key, attestedAt: int)

  /** The terms of a token and how many attestations it has. */
  datatype Terms = Terms(mint: Key, attestor: Key, maxAge: int, count: nat)

  datatype ReserveError =
    | MaxAgeInvalid
    | NotLatest
    | ByFormerAttestor
    | InTheFuture
    | AttestationExpired
    | Insufficient
    | NotTheAttestor
    | MaxAgeMismatch
    | NotAnAttestorMember
    | TermsUnchanged
    | QuorumRefused
    | TokenOverflow
    | BurnTooMuch

  datatype Gate = Open | Shut(error: ReserveError)

  predicate IsI64(n: int) { I64_MIN <= n <= I64_MAX }

  function SaturatingAdd(a: nat, b: nat): int { if a + b > U64_MAX then U64_MAX else a + b }

  function SaturatingSub(a: int, b: int): int {
    if a - b > I64_MAX then I64_MAX else if a - b < I64_MIN then I64_MIN else a - b
  }

  function ValidateMaxAge(maxAge: int): Gate {
    if 1 <= maxAge <= MAX_ATTESTATION_MAX_AGE then Open else Shut(MaxAgeInvalid)
  }

  function RequireLatest(terms: Terms, a: Attestation): Gate {
    if a.mint != terms.mint then Shut(NotLatest)
    else if a.index >= U64_MAX || a.index + 1 != terms.count then Shut(NotLatest)
    else if a.attestor != terms.attestor then Shut(ByFormerAttestor)
    else Open
  }

  function RequireWithinReserve(a: Attestation, maxAge: int, supply: nat, minting: nat, now: int): Gate {
    if a.attestedAt > now then Shut(InTheFuture)
    else if SaturatingSub(now, a.attestedAt) > maxAge then Shut(AttestationExpired)
    else if SaturatingAdd(supply, minting) > a.amount then Shut(Insufficient)
    else Open
  }

  /** The one gate every issuance passes. */
  function IssuanceGate(terms: Terms, a: Attestation, supply: nat, minting: nat, now: int): Gate {
    var latest := RequireLatest(terms, a);
    if latest.Shut? then latest else RequireWithinReserve(a, terms.maxAge, supply, minting, now)
  }

  // ─── The page ──────────────────────────────────────────────────────────────

  datatype Shown = Shown(index: nat, attestor: Key, attestedAt: int, expiresAt: int, ageSeconds: int)

  datatype Standing = Standing(
    circulation: nat, reserve: nat, difference: int, attestation: Option<Shown>, expired: bool, attestorReplaced: bool)

  function ReserveStanding(attestor: Key, maxAge: int, latest: Option<Attestation>, circulation: nat, now: int): Standing {
    var reserve := if latest.Some? then latest.value.amount else 0;
    Standing(
      circulation, reserve, reserve - circulation,
      if latest.None? then None
      else Some(Shown(latest.value.index, latest.value.attestor, latest.value.attestedAt,
                      latest.value.attestedAt + maxAge, Max(0, now - latest.value.attestedAt))),
      latest.None? || now - latest.value.attestedAt > maxAge,
      latest.Some? && latest.value.attestor != attestor)
  }

  /**
   * What the page shows of the latest attestation: who attested, when and which; the last second it
   * is current; and its age, by which it is expired exactly when the program says so. Without one
   * the reserve is nothing and counts as expired.
   */
  lemma PageShows(attestor: Key, maxAge: int, latest: Option<Attestation>, circulation: nat, now: int)
    requires maxAge >= 0
    ensures
      var page := ReserveStanding(attestor, maxAge, latest, circulation, now);
      && page.circulation == circulation && page.reserve == page.circulation + page.difference
      && match latest
         case None => page.reserve == 0 && page.attestation == None && page.expired && !page.attestorReplaced
         case Some(a) =>
           && page.reserve == a.amount && page.attestation.Some?
           && var shown := page.attestation.value;
              && shown.index == a.index && shown.attestor == a.attestor && shown.attestedAt == a.attestedAt
              && (page.attestorReplaced <==> shown.attestor != attestor)
              && (page.expired <==> now > shown.expiresAt) && (page.expired <==> shown.ageSeconds > maxAge)
              && (if now >= a.attestedAt then a.attestedAt + shown.ageSeconds == now else shown.ageSeconds == 0)
  {
  }

  /** What the page foretells of an issuance. */
  function Foretold(s: Standing, minting: nat): Gate {
    if s.attestorReplaced then Shut(ByFormerAttestor)
    else if s.expired then Shut(AttestationExpired)
    else if minting > s.difference then Shut(Insufficient)
    else Open
  }

  /**
   * For the latest attestation the program decides exactly as the page foretells, refusal by
   * refusal, with two exceptions. An attestation dated after now, which no instruction writes, the
   * program refuses for its date, where the page shows it as current. And at the top of the range
   * the saturated sum never exceeds the attested amount, so an overflowing issuance is not refused
   * for the reserve.
   */
  lemma GateMatchesStanding(terms: Terms, a: Attestation, supply: nat, minting: nat, now: int)
    requires a.mint == terms.mint && a.index + 1 == terms.count <= U64_MAX
    requires IsI64(now) && IsI64(a.attestedAt) && ValidateMaxAge(terms.maxAge) == Open
    requires IsU64(supply) && IsU64(minting) && IsU64(a.amount)
    ensures
      var page := Foretold(ReserveStanding(terms.attestor, terms.maxAge, Some(a), supply, now), minting);
      IssuanceGate(terms, a, supply, minting, now)
      == if page != Shut(ByFormerAttestor) && a.attestedAt > now then Shut(InTheFuture)
         else if page == Shut(Insufficient) && a.amount == U64_MAX then Open
         else page
    ensures a.attestedAt > now ==> !ReserveStanding(terms.attestor, terms.maxAge, Some(a), supply, now).expired
  {
  }

  /** The exception is reachable. */
  lemma SaturationAdmits()
    ensures
      var terms, a := Terms(1, 2, 60, 1), Attestation(1, 0, U64_MAX, 2, 1000);
      IssuanceGate(terms, a, U64_MAX, 1, 1000) == Open
      && Foretold(ReserveStanding(2, 60, Some(a), U64_MAX, 1000), 1) == Shut(Insufficient)
  {
  }

  /** An older attestation, whatever it attests, or another token's never opens the gate. */
  lemma OnlyTheLatestOpens(terms: Terms, a: Attestation, supply: nat, minting: nat, now: int)
    requires IsU64(supply) && IsU64(minting) && IsI64(now) && IsI64(a.attestedAt) && ValidateMaxAge(terms.maxAge) == Open
    ensures IssuanceGate(terms, a, supply, minting, now) == Open ==>
              && a.mint == terms.mint && a.index + 1 == terms.count && a.attestor == terms.attestor
              && a.attestedAt <= now <= a.attestedAt + terms.maxAge
              && (supply + minting <= a.amount || a.amount >= U64_MAX)
  {
  }
}

/**
 * One token's attestations, terms and circulation over its life
 * (programs/issuer-forge/src/instructions/attest_reserve.rs, set_attestor.rs, mint.rs).
 */
module ReserveMachine {
  import opened Common
  import opened Quorum
  import opened Reserve

  /** An issuance with what it was decided on at that moment. */
  datatype Issuance = Issuance(at: int, supplyAfter: nat, amount: nat, attestation: Attestation, terms: Terms)

  datatype Token = Token(now: int, terms: Terms, attestations: seq<Attestation>, supply: nat, issuances: seq<Issuance>)

  /**
   * `isMember` and `quorum` stand for what a change of terms checks of the membership; `a` is the
   * account an issuance is given.
   */
  datatype Step =
    | Attest(signer: Key, amount: nat, attestedAt: int, maxAge: int)
    | SetTerms(attestor: Key, maxAge: int, isMember: bool, quorum: bool)
    | Issue(a: Attestation, minting: nat)
    | Burn(amount: nat)
    | Tick(seconds: nat)

  function AttestStep(s: Token, signer: Key, amount: nat, attestedAt: int, maxAge: int): Result<Token, ReserveError> {
    if signer != s.terms.attestor then Err(NotTheAttestor)
    else if maxAge != s.terms.maxAge then Err(MaxAgeMismatch)
    else if attestedAt > s.now then Err(InTheFuture)
    else if s.terms.count >= U64_MAX then Err(Insufficient)
    else
      var a := Attestation(s.terms.mint, s.terms.count, amount, signer, attestedAt);
      Ok(s.(attestations := s.attestations + [a], terms := s.terms.(count := s.terms.count + 1)))
  }

  function SetTermsStep(s: Token, attestor: Key, maxAge: int, isMember: bool, quorum: bool): Result<Token, ReserveError> {
    if ValidateMaxAge(maxAge).Shut? then Err(MaxAgeInvalid)
    else if !isMember then Err(NotAnAttestorMember)
    else if attestor == s.terms.attestor && maxAge == s.terms.maxAge then Err(TermsUnchanged)
    else if !quorum then Err(QuorumRefused)
    else Ok(s.(terms := s.terms.(attestor := attestor, maxAge := maxAge)))
  }

  /** The gate first; the token program then refuses a supply that does not fit. */
  function IssueStep(s: Token, a: Attestation, minting: nat): Result<Token, ReserveError> {
    var gate := IssuanceGate(s.terms, a, s.supply, minting, s.now);
    if gate.Shut? then Err(gate.error)
    else if s.supply + minting > U64_MAX then Err(TokenOverflow)
    else
      Ok(s.(supply := s.supply + minting,
            issuances := s.issuances + [Issuance(s.now, s.supply + minting, minting, a, s.terms)]))
  }

  function Apply(s: Token, step: Step): Result<Token, ReserveError> {
    match step
    case Attest(signer, amount, attestedAt, maxAge) => AttestStep(s, signer, amount, attestedAt, maxAge)
    case SetTerms(attestor, maxAge, isMember, quorum) => SetTermsStep(s, attestor, maxAge, isMember, quorum)
    case Issue(a, minting) => IssueStep(s, a, minting)
    case Burn(amount) => if amount > s.supply then Err(BurnTooMuch) else Ok(s.(supply := s.supply - amount))
    case Tick(seconds) => Ok(s.(now := s.now + seconds))
  }

  function Next(s: Token, step: Step): Token {
    var r := Apply(s, step);
    if r.Ok? then r.value else s
  }

  /** The program's accounts are what its own instructions wrote, amounts fit their fields and the clock its type. */
  predicate Possible(s: Token, step: Step) {
    match step
    case Attest(_, amount, attestedAt, _) => IsU64(amount) && IsI64(attestedAt)
    case Issue(a, minting) => IsU64(minting) && (a.mint == s.terms.mint ==> a in s.attestations)
    case Tick(seconds) => IsI64(s.now + seconds)
    case _ => true
  }

  ghost predicate PossibleRun(s: Token, steps: seq<Step>) {
    forall i :: 0 <= i < |steps| ==> Possible(Run(s, steps[..i]), steps[i])
  }

  function Run(s: Token, steps: seq<Step>): Token {
    if steps == [] then s else Next(Run(s, steps[..|steps| - 1]), steps[|steps| - 1])
  }

  /** Right after the issuance no more was in circulation than the latest attestation of that moment attested. */
  predicate Covered(i: Issuance) {
    && i.supplyAfter <= i.attestation.amount
    && i.attestation.mint == i.terms.mint && i.attestation.index + 1 == i.terms.count
    && i.attestation.attestor == i.terms.attestor
    && i.attestation.attestedAt <= i.at <= i.attestation.attestedAt + i.terms.maxAge
  }

  ghost predicate Kept(s: Token) {
    && IsI64(s.now) && IsU64(s.supply) && ValidateMaxAge(s.terms.maxAge) == Open
    && |s.attestations| == s.terms.count <= U64_MAX
    && (forall k :: 0 <= k < |s.attestations| ==> AttestationKept(s, k))
    && (forall k :: 0 <= k < |s.issuances| ==> IssuanceKept(s, s.issuances[k]))
  }

  /** Attestations are numbered in their order and dated no later than now. */
  predicate AttestationKept(s: Token, k: nat)
    requires k < |s.attestations|
  {
    var a := s.attestations[k];
    a.index == k && a.mint == s.terms.mint && IsU64(a.amount) && IsI64(a.attestedAt) && a.attestedAt <= s.now
  }

  predicate IssuanceKept(s: Token, i: Issuance) {
    Covered(i) && i.at <= s.now && i.attestation in s.attestations && i.terms.mint == s.terms.mint
  }

  /**
   * How a token comes to be: its terms, its first attestation and its first issuance at once.
   * `isAttestor` stands for the attestor's role in the membership.
   */
  datatype Creation = Creation(
    mint: Key, attestor: Key, isAttestor: bool, maxAge: int, amount: nat, attestedAt: int, minting: nat)

  /** The numbers fit their fields. */
  predicate Fits(c: Creation, now: int) {
    IsI64(now) && IsI64(c.attestedAt) && IsU64(c.amount) && IsU64(c.minting)
  }

  function CreateToken(c: Creation, now: int): Result<Token, ReserveError> {
    if !c.isAttestor then Err(NotAnAttestorMember)
    else if ValidateMaxAge(c.maxAge).Shut? then Err(MaxAgeInvalid)
    else if c.attestedAt > now then Err(InTheFuture)
    else
      var a := Attestation(c.mint, 0, c.amount, c.attestor, c.attestedAt);
      IssueStep(Token(now, Terms(c.mint, c.attestor, c.maxAge, 1), [a], 0, []), a, c.minting)
  }

  /**
   * As far as the reserve goes, a token is created exactly with an attestor of the membership, a valid period and a first
   * attestation that is current and covers the first issuance.
   */
  lemma CreatedExactly(c: Creation, now: int)
    requires Fits(c, now)
    ensures CreateToken(c, now).Ok? <==>
              && c.isAttestor && 1 <= c.maxAge <= MAX_ATTESTATION_MAX_AGE
              && c.attestedAt <= now <= c.attestedAt + c.maxAge && c.minting <= c.amount
    ensures CreateToken(c, now).Ok? ==> Kept(CreateToken(c, now).value)
  {
  }

  lemma KeptByIssue(s: Token, a: Attestation, minting: nat)
    requires Kept(s) && Possible(s, Issue(a, minting)) && IssueStep(s, a, minting).Ok?
    ensures Kept(IssueStep(s, a, minting).value)
  {
    var t := IssueStep(s, a, minting).value;
    assert a.mint == s.terms.mint;
    var k :| 0 <= k < |s.attestations| && s.attestations[k] == a;
    assert AttestationKept(s, k);
    OnlyTheLatestOpens(s.terms, a, s.supply, minting, s.now);
    forall k | 0 <= k < |t.attestations| ensures AttestationKept(t, k) { assert AttestationKept(s, k); }
    forall k | 0 <= k < |t.issuances| ensures IssuanceKept(t, t.issuances[k]) {
      if k < |s.issuances| { assert IssuanceKept(s, s.issuances[k]); }
    }
  }

  lemma KeptByAttest(s: Token, signer: Key, amount: nat, attestedAt: int, maxAge: int)
    requires Kept(s) && Possible(s, Attest(signer, amount, attestedAt, maxAge))
    requires AttestStep(s, signer, amount, attestedAt, maxAge).Ok?
    ensures Kept(AttestStep(s, signer, amount, attestedAt, maxAge).value)
  {
    var t := AttestStep(s, signer, amount, attestedAt, maxAge).value;
    forall k | 0 <= k < |t.attestations| ensures AttestationKept(t, k) {
      if k < |s.attestations| { assert AttestationKept(s, k); }
    }
    forall k | 0 <= k < |t.issuances| ensures IssuanceKept(t, t.issuances[k]) { assert IssuanceKept(s, s.issuances[k]); }
  }

  lemma KeptByOther(s: Token, t: Token)
    requires Kept(s) && s.now <= t.now && IsI64(t.now) && IsU64(t.supply) && ValidateMaxAge(t.terms.maxAge) == Open
    requires t.attestations == s.attestations && t.issuances == s.issuances
    requires t.terms.mint == s.terms.mint && t.terms.count == s.terms.count
    ensures Kept(t)
  {
    forall k | 0 <= k < |t.attestations| ensures AttestationKept(t, k) { assert AttestationKept(s, k); }
    forall k | 0 <= k < |t.issuances| ensures IssuanceKept(t, t.issuances[k]) { assert IssuanceKept(s, s.issuances[k]); }
  }

  lemma KeptByStep(s: Token, step: Step)
    requires Kept(s) && Possible(s, step)
    ensures Kept(Next(s, step))
  {
    if Apply(s, step).Ok? {
      match step
      case Attest(signer, amount, attestedAt, maxAge) => KeptByAttest(s, signer, amount, attestedAt, maxAge);
      case Issue(a, minting) => KeptByIssue(s, a, minting);
      case _ => KeptByOther(s, Next(s, step));
    }
  }

  lemma PossiblePrefix(s: Token, steps: seq<Step>, n: nat)
    requires PossibleRun(s, steps) && n < |steps|
    ensures PossibleRun(s, steps[..n]) && Possible(Run(s, steps[..n]), steps[n])
    ensures forall i :: 0 <= i < n ==> steps[..n][i] == steps[i]
  {
    assert forall i :: 0 <= i < n ==> steps[..n][..i] == steps[..i] && steps[..n][i] == steps[i];
  }

  /**
   * In every run of attestations, changes of terms, issuances and burns: right after each issuance
   * the circulation was at most what the then latest attestation attested, signed by the attestor
   * then in force and within the period then in force, the top of the range included.
   */
  lemma {:induction false} RunKeeps(s: Token, steps: seq<Step>)
    requires Kept(s) && PossibleRun(s, steps)
    ensures Kept(Run(s, steps))
  {
    if steps != [] {
      var n := |steps| - 1;
      PossiblePrefix(s, steps, n);
      RunKeeps(s, steps[..n]);
      KeptByStep(Run(s, steps[..n]), steps[n]);
    }
  }

  /** Some attestation covers what is in circulation. */
  ghost predicate Backed(s: Token) {
    exists a :: a in s.attestations && s.supply <= a.amount
  }

  lemma BackedStep(s: Token, step: Step)
    requires Kept(s) && Possible(s, step) && Backed(s)
    ensures Backed(Next(s, step))
  {
    var t := Next(s, step);
    var a :| a in s.attestations && s.supply <= a.amount;
    if Apply(s, step).Ok? && step.Issue? {
      assert step.a.mint == s.terms.mint;
      var k :| 0 <= k < |s.attestations| && s.attestations[k] == step.a;
      assert AttestationKept(s, k);
      OnlyTheLatestOpens(s.terms, step.a, s.supply, step.minting, s.now);
      assert step.a in t.attestations && t.supply <= step.a.amount;
    } else {
      assert a in t.attestations && t.supply <= a.amount;
    }
  }

  /** Over the whole life of a token, whatever is attested, issued or burned, its circulation stays within something once attested. */
  lemma {:induction false} CreatedRunsAreBacked(c: Creation, now: int, steps: seq<Step>)
    requires Fits(c, now) && CreateToken(c, now).Ok? && PossibleRun(CreateToken(c, now).value, steps)
    ensures Kept(Run(CreateToken(c, now).value, steps)) && Backed(Run(CreateToken(c, now).value, steps))
  {
    var s := CreateToken(c, now).value;
    CreatedExactly(c, now);
    RunKeeps(s, steps);
    if steps == [] {
      assert s.attestations[0].amount == c.amount;
    } else {
      var n := |steps| - 1;
      PossiblePrefix(s, steps, n);
      RunKeeps(s, steps[..n]);
      CreatedRunsAreBacked(c, now, steps[..n]);
      BackedStep(Run(s, steps[..n]), steps[n]);
    }
  }

  // ─── Where attestations and issuances come from ────────────────────────────

  /** At this step of the run the attestor in force signed exactly this, under the period in force, as the next attestation of the token. */
  ghost predicate SignedAt(s: Token, steps: seq<Step>, i: nat, a: Attestation) {
    && i < |steps| && steps[i].Attest?
    && var before := Run(s, steps[..i]);
       && steps[i].signer == a.attestor == before.terms.attestor && steps[i].maxAge == before.terms.maxAge
       && steps[i].amount == a.amount && steps[i].attestedAt == a.attestedAt <= before.now
       && a.mint == before.terms.mint && a.index == before.terms.count
  }

  /** At this step of the run this was issued, against the attestation and the terms of that moment. */
  ghost predicate IssuedAt(s: Token, steps: seq<Step>, i: nat, issued: Issuance) {
    && i < |steps| && steps[i].Issue?
    && var before := Run(s, steps[..i]);
       issued == Issuance(before.now, before.supply + steps[i].minting, steps[i].minting, steps[i].a, before.terms)
  }

  /** Every attestation of a run is what some step of the run signed: its amount, its date, by the attestor in force. */
  lemma {:induction false} AttestationsWereSigned(s: Token, steps: seq<Step>, a: Attestation)
    requires a in Run(s, steps).attestations && a !in s.attestations
    ensures exists i :: SignedAt(s, steps, i, a)
  {
    if steps != [] {
      var n := |steps| - 1;
      var before := Run(s, steps[..n]);
      if a in before.attestations {
        AttestationsWereSigned(s, steps[..n], a);
        var i :| SignedAt(s, steps[..n], i, a);
        PrefixOfPrefix(steps, n, i);
        assert SignedAt(s, steps, i, a);
      } else {
        assert Apply(before, steps[n]).Ok? && steps[n].Attest?;
        assert SignedAt(s, steps, n, a);
      }
    }
  }

  /** And every issuance is what some step issued. */
  lemma {:induction false} IssuancesWereAsked(s: Token, steps: seq<Step>, issued: Issuance)
    requires issued in Run(s, steps).issuances && issued !in s.issuances
    ensures exists i :: IssuedAt(s, steps, i, issued)
  {
    if steps != [] {
      var n := |steps| - 1;
      var before := Run(s, steps[..n]);
      if issued in before.issuances {
        IssuancesWereAsked(s, steps[..n], issued);
        var i :| IssuedAt(s, steps[..n], i, issued);
        PrefixOfPrefix(steps, n, i);
        assert IssuedAt(s, steps, i, issued);
      } else {
        assert Apply(before, steps[n]).Ok? && steps[n].Issue?;
        assert IssuedAt(s, steps, n, issued);
      }
    }
  }

  lemma {:induction false} RunExtends(s: Token, steps: seq<Step>, n: nat)
    requires n <= |steps|
    ensures Run(s, steps[..n]).attestations <= Run(s, steps).attestations
    ensures Run(s, steps[..n]).issuances <= Run(s, steps).issuances
    decreases |steps|
  {
    if n < |steps| {
      var m := |steps| - 1;
      assert steps[..m][..n] == steps[..n];
      RunExtends(s, steps[..m], n);
    } else {
      assert steps[..n] == steps;
    }
  }

  /** And the other way round: whatever was accepted is on record from then on, an attestation among the attestations and an issuance among the issuances. */
  lemma AcceptedIsRecorded(s: Token, steps: seq<Step>, i: nat)
    requires i < |steps| && Apply(Run(s, steps[..i]), steps[i]).Ok?
    ensures steps[i].Attest? ==> exists a :: a in Run(s, steps).attestations && SignedAt(s, steps, i, a)
    ensures steps[i].Issue? ==> exists issued :: issued in Run(s, steps).issuances && IssuedAt(s, steps, i, issued)
  {
    var before, after := Run(s, steps[..i]), Run(s, steps[..i + 1]);
    PrefixOfPrefix(steps, i + 1, i);
    RunExtends(s, steps, i + 1);
    if steps[i].Attest? {
      var a := after.attestations[|before.attestations|];
      assert a in Run(s, steps).attestations && SignedAt(s, steps, i, a);
    }
    if steps[i].Issue? {
      var issued := after.issuances[|before.issuances|];
      assert issued in Run(s, steps).issuances && IssuedAt(s, steps, i, issued);
    }
  }

  /** How long the run lasted. */
  function Elapsed(steps: seq<Step>): nat {
    if steps == [] then 0
    else Elapsed(steps[..|steps| - 1]) + if steps[|steps| - 1].Tick? then steps[|steps| - 1].seconds else 0
  }

  /** Time passes only as it does, and no instruction moves the clock. */
  lemma {:induction false} ClockRuns(s: Token, steps: seq<Step>)
    ensures Run(s, steps).now == s.now + Elapsed(steps)
  {
    if steps != [] { ClockRuns(s, steps[..|steps| - 1]); }
  }

  /** This amount was attested at the token's creation, or signed at a step of the run. */
  ghost predicate WasAttested(c: Creation, now: int, steps: seq<Step>, amount: nat)
    requires CreateToken(c, now).Ok?
  {
    amount == c.amount
    || exists i, a :: SignedAt(CreateToken(c, now).value, steps, i, a) && a.amount == amount
  }

  lemma AttestedAmounts(c: Creation, now: int, steps: seq<Step>, a: Attestation)
    requires Fits(c, now) && CreateToken(c, now).Ok? && a in Run(CreateToken(c, now).value, steps).attestations
    ensures WasAttested(c, now, steps, a.amount)
  {
    var s := CreateToken(c, now).value;
    if a !in s.attestations {
      AttestationsWereSigned(s, steps, a);
      var i :| SignedAt(s, steps, i, a);
    }
  }

  /**
   * Over the whole life of a token its circulation, and right after each issuance the circulation of
   * that moment, stays within an amount that was attested: at its creation, or later by the attestor
   * then in force.
   */
  lemma CreatedRunsWereAttested(c: Creation, now: int, steps: seq<Step>)
    requires Fits(c, now) && CreateToken(c, now).Ok? && PossibleRun(CreateToken(c, now).value, steps)
    ensures
      var t := Run(CreateToken(c, now).value, steps);
      && (exists amount :: t.supply <= amount && WasAttested(c, now, steps, amount))
      && forall issued :: issued in t.issuances ==>
           exists amount :: issued.supplyAfter <= amount && WasAttested(c, now, steps, amount)
  {
    var s := CreateToken(c, now).value;
    var t := Run(s, steps);
    CreatedRunsAreBacked(c, now, steps);
    var a :| a in t.attestations && t.supply <= a.amount;
    AttestedAmounts(c, now, steps, a);
    forall issued | issued in t.issuances
      ensures exists amount :: issued.supplyAfter <= amount && WasAttested(c, now, steps, amount)
    {
      var k :| 0 <= k < |t.issuances| && t.issuances[k] == issued;
      assert IssuanceKept(t, t.issuances[k]);
      AttestedAmounts(c, now, steps, issued.attestation);
    }
  }

  /** What the accepted issuances of a run brought in less what its burns took out. */
  function Moved(s: Token, steps: seq<Step>): int {
    if steps == [] then 0
    else
      var n := |steps| - 1;
      var before := Run(s, steps[..n]);
      if Apply(before, steps[n]).Err? then Moved(s, steps[..n])
      else
        match steps[n]
        case Issue(_, minting) => Moved(s, steps[..n]) + minting
        case Burn(amount) => Moved(s, steps[..n]) - amount
        case _ => Moved(s, steps[..n])
  }

  /** Nothing enters or leaves circulation but by an issuance or a burn. */
  lemma {:induction false} SupplyIsWhatMoved(s: Token, steps: seq<Step>)
    ensures Run(s, steps).supply == s.supply + Moved(s, steps)
  {
    if steps != [] { SupplyIsWhatMoved(s, steps[..|steps| - 1]); }
  }

  /** When each instruction is accepted. */
  lemma AcceptedExactly(s: Token, step: Step)
    requires Kept(s) && Possible(s, step)
    ensures Apply(s, step).Ok? <==>
      match step
      case Attest(signer, amount, attestedAt, maxAge) =>
        signer == s.terms.attestor && maxAge == s.terms.maxAge && attestedAt <= s.now && s.terms.count < U64_MAX
      case SetTerms(attestor, maxAge, isMember, quorum) =>
        && isMember && quorum && 1 <= maxAge <= 7_776_000
        && (attestor != s.terms.attestor || maxAge != s.terms.maxAge)
      case Issue(a, minting) =>
        && s.attestations != [] && a == s.attestations[|s.attestations| - 1] && a.attestor == s.terms.attestor
        && s.now <= a.attestedAt + s.terms.maxAge && s.supply + minting <= a.amount
      case Burn(amount) => amount <= s.supply
      case Tick(_) => true
  {
    if step.Issue? {
      if step.a.mint == s.terms.mint {
        var k :| 0 <= k < |s.attestations| && s.attestations[k] == step.a;
        assert AttestationKept(s, k);
        OnlyTheLatestOpens(s.terms, step.a, s.supply, step.minting, s.now);
      }
      if s.attestations != [] { assert AttestationKept(s, |s.attestations| - 1); }
    }
  }

  /** Whatever is refused is refused for a reason that is so. */
  lemma RefusalIsTrue(s: Token, step: Step)
    requires Kept(s) && Possible(s, step) && Apply(s, step).Err?
    ensures
      match Apply(s, step).error
      case NotTheAttestor => step.Attest? && step.signer != s.terms.attestor
      case MaxAgeMismatch => step.Attest? && step.maxAge != s.terms.maxAge
      case InTheFuture => (step.Attest? && step.attestedAt > s.now) || (step.Issue? && step.a.attestedAt > s.now)
      case MaxAgeInvalid => step.SetTerms? && !(1 <= step.maxAge <= 7_776_000)
      case NotAnAttestorMember => step.SetTerms? && !step.isMember
      case TermsUnchanged => step.SetTerms? && step.attestor == s.terms.attestor && step.maxAge == s.terms.maxAge
      case QuorumRefused => step.SetTerms? && !step.quorum
      case NotLatest => step.Issue? && (s.attestations == [] || step.a != s.attestations[|s.attestations| - 1])
      case ByFormerAttestor => step.Issue? && step.a.attestor != s.terms.attestor
      case AttestationExpired => step.Issue? && s.now > step.a.attestedAt + s.terms.maxAge
      case Insufficient => (step.Attest? && s.terms.count >= U64_MAX) || (step.Issue? && s.supply + step.minting > step.a.amount)
      case TokenOverflow => step.Issue? && s.supply + step.minting > U64_MAX
      case BurnTooMuch => step.Burn? && step.amount > s.supply
  {
    if step.Issue? {
      if s.attestations != [] { assert AttestationKept(s, |s.attestations| - 1); }
    }
  }

  /** An accepted change of terms leaves the terms it names, and no other instruction changes them. */
  lemma TermsAreNamed(s: Token, step: Step)
    ensures
      var t := Next(s, step);
      && t.terms.mint == s.terms.mint
      && (t.terms.attestor != s.terms.attestor || t.terms.maxAge != s.terms.maxAge ==> step.SetTerms?)
      && (step.SetTerms? && Apply(s, step).Ok? ==> t.terms.attestor == step.attestor && t.terms.maxAge == step.maxAge)
  {
  }

  /** Nothing ever attested is edited or removed. */
  lemma {:induction false} AttestationsAppendOnly(s: Token, steps: seq<Step>)
    ensures s.attestations <= Run(s, steps).attestations && s.issuances <= Run(s, steps).issuances
  {
    if steps != [] { AttestationsAppendOnly(s, steps[..|steps| - 1]); }
  }

  /** The latest attestation is by someone else than the attestor in force. */
  predicate Awaiting(s: Token) {
    s.attestations != [] && s.attestations[|s.attestations| - 1].attestor != s.terms.attestor
  }

  lemma AwaitingStep(s: Token, step: Step)
    requires Kept(s) && Possible(s, step) && Awaiting(s) && !step.Attest? && !step.SetTerms?
    ensures Awaiting(Next(s, step)) && Next(s, step).supply <= s.supply
  {
    if step.Issue? && step.a.mint == s.terms.mint {
      var k :| 0 <= k < |s.attestations| && s.attestations[k] == step.a;
      assert AttestationKept(s, k);
    }
  }

  /** Once the attestor is replaced nothing is issued until the terms change again or someone attests. */
  lemma {:induction false} ReplacedAttestorStopsIssuance(s: Token, steps: seq<Step>)
    requires Kept(s) && PossibleRun(s, steps) && Awaiting(s)
    requires forall i :: 0 <= i < |steps| ==> !steps[i].Attest? && !steps[i].SetTerms?
    ensures Awaiting(Run(s, steps)) && Run(s, steps).supply <= s.supply
  {
    if steps != [] {
      var n := |steps| - 1;
      PossiblePrefix(s, steps, n);
      ReplacedAttestorStopsIssuance(s, steps[..n]);
      RunKeeps(s, steps[..n]);
      AwaitingStep(Run(s, steps[..n]), steps[n]);
    }
  }
}
