/** Decimal texts of natural numbers. */
module Decimal {

  predicate IsDigit(c: char) { '0' <= c <= '9' }

  predicate Digits(s: string) { forall i :: 0 <= i < |s| ==> IsDigit(s[i]) }

  /** One digit or more. */
  predicate AllDigits(s: string) { s != "" && Digits(s) }

  /** No leading zeros. */
  predicate Canonical(s: string) { AllDigits(s) && (|s| == 1 || s[0] != '0') }

  function DigitOf(n: nat): char
    requires n < 10
  {
    '0' + n as char
  }

  function Number(s: string): nat
    requires Digits(s)
  {
    if s == "" then 0 else 10 * Number(s[..|s| - 1]) + (s[|s| - 1] - '0') as nat
  }

  function Text(n: nat): string {
    if n < 10 then [DigitOf(n)] else Text(n / 10) + [DigitOf(n % 10)]
  }

  lemma {:induction false} NumberOfText(n: nat)
    ensures Canonical(Text(n)) && (n > 0 ==> Text(n)[0] != '0')
    ensures Number(Text(n)) == n
  {
    if n >= 10 {
      NumberOfText(n / 10);
      assert Text(n)[..|Text(n)| - 1] == Text(n / 10);
      assert Text(n)[0] == Text(n / 10)[0];
    }
  }

  lemma {:induction false} TextOfNumber(s: string)
    requires Canonical(s)
    ensures Text(Number(s)) == s
  {
    if |s| == 1 {
      assert s[..0] == "";
    } else {
      var front := s[..|s| - 1];
      assert front[0] == s[0];
      TextOfNumber(front);
      LeadingDigit(front);
      assert s == front + [s[|s| - 1]];
    }
  }

  lemma {:induction false} LeadingDigit(s: string)
    requires AllDigits(s) && s[0] != '0'
    ensures Number(s) > 0
  {
    if |s| > 1 {
      assert s[..|s| - 1][0] == s[0];
      LeadingDigit(s[..|s| - 1]);
    }
  }

  // ─── Fields between separators ─────────────────────────────────────────────

  function Split(s: string, sep: char): (r: seq<string>)
    ensures |r| >= 1
  {
    if s == "" then [""]
    else
      var rest := Split(s[1..], sep);
      if s[0] == sep then [""] + rest else [[s[0]] + rest[0]] + rest[1..]
  }

  lemma {:induction false} SplitWhole(s: string, sep: char)
    requires sep !in s
    ensures Split(s, sep) == [s]
  {
    if s != "" {
      SplitWhole(s[1..], sep);
      assert s == [s[0]] + s[1..];
    }
  }

  lemma {:induction false} SplitFirst(a: string, b: string, sep: char)
    requires sep !in a
    ensures Split(a + [sep] + b, sep) == [a] + Split(b, sep)
  {
    var s := a + [sep] + b;
    if a == "" {
      assert s[1..] == b;
    } else {
      assert s[0] == a[0] && s[1..] == a[1..] + [sep] + b;
      SplitFirst(a[1..], b, sep);
      assert a == [a[0]] + a[1..];
    }
  }

  function Join(parts: seq<string>, sep: char): string
    requires |parts| >= 1
  {
    if |parts| == 1 then parts[0] else parts[0] + [sep] + Join(parts[1..], sep)
  }

  lemma {:induction false} JoinSplit(s: string, sep: char)
    ensures Join(Split(s, sep), sep) == s
    ensures forall i :: 0 <= i < |Split(s, sep)| ==> sep !in Split(s, sep)[i]
  {
    if s != "" {
      JoinSplit(s[1..], sep);
      var rest := Split(s[1..], sep);
      if s[0] != sep && |rest| > 1 {
        assert Split(s, sep)[1..] == rest[1..];
      }
      if s[0] == sep { assert Split(s, sep)[1..] == rest; }
    }
  }

  lemma DigitsHaveNo(s: string, c: char)
    requires Digits(s) && !IsDigit(c)
    ensures c !in s
  {
  }
}

/** Indexed events: the feed's messages, the journal's lines and the rows of the mirror (packages/shared/src/events/index.ts). */
module Events {
  import opened Common
  import opened Ordering
  import opened Decimal
  import opened Refusals

  datatype HolderStatus = HolderStatus(tier: nat, jurisdiction: string, denied: bool, expiresAt: Option<int>)

  datatype ComplianceAction = Freeze | Unfreeze | Seize | Pause | Unpause | SetPolicy | SetRoles | SetAttestor

  /** Both token accounts and both owners. */
  datatype Parties = Parties(source: string, destination: string, sender: string, recipient: string, amount: nat)

  datatype Body =
    | Transfer(parties: Parties)
    | Refusal(parties: Parties, code: Option<RefusalCode>, programError: Option<int>, ruleSlot: Option<nat>)
    | Compliance(
        action: ComplianceAction, target: Option<string>, quantity: Option<nat>, reasonCode: string, caseRef: string,
        signers: seq<string>, attestationMaxAge: Option<nat>)
    | Attestation(index: nat, reserve: nat, currency: string, attestor: string, attestedAt: int, validUntil: int)
    | Thaw(wallet: string, tokenAccount: string, authority: string, first: Option<HolderStatus>)
    | StatusChange(wallet: string, authority: string, status: HolderStatus)

  datatype Event = Event(
    signature: string, slot: nat, blockTime: Option<int>, eventIndex: nat, mint: string, body: Body)

  // ─── Identity ──────────────────────────────────────────────────────────────

  function KeyOf(e: Event): string {
    e.signature + ":" + Text(e.eventIndex)
  }

  lemma LongerTail(a: string, x: string, b: string, y: string)
    requires a + ":" + x == b + ":" + y && |x| < |y|
    ensures ':' in y
  {
    var k := a + ":" + x;
    assert k[|k| - |x| - 1] == ':';
    assert (b + ":" + y)[|k| - |x| - 1] == y[|y| - |x| - 1];
  }

  /** Two events have one key exactly when they are the same event of the same transaction. */
  lemma KeyIdentifies(a: Event, b: Event)
    ensures KeyOf(a) == KeyOf(b) <==> a.signature == b.signature && a.eventIndex == b.eventIndex
  {
    var x, y := Text(a.eventIndex), Text(b.eventIndex);
    NumberOfText(a.eventIndex);
    NumberOfText(b.eventIndex);
    if KeyOf(a) == KeyOf(b) {
      if |x| < |y| { LongerTail(a.signature, x, b.signature, y); }
      if |y| < |x| { LongerTail(b.signature, y, a.signature, x); }
      var k := KeyOf(a);
      assert k[|a.signature| + 1..] == x && k[|b.signature| + 1..] == y;
      assert k[..|a.signature|] == a.signature && k[..|b.signature|] == b.signature;
    }
  }

  // ─── Order ─────────────────────────────────────────────────────────────────

  /** Where an event stands among all events: by slot, then signature, then its number in the transaction. */
  datatype Cursor = Cursor(slot: nat, signature: string, eventIndex: nat)

  function CursorOf(e: Event): Cursor { Cursor(e.slot, e.signature, e.eventIndex) }

  /** The row comparison of the database. */
  predicate CursorLess(a: Cursor, b: Cursor) {
    || a.slot < b.slot
    || (a.slot == b.slot && Before(a.signature, b.signature))
    || (a.slot == b.slot && a.signature == b.signature && a.eventIndex < b.eventIndex)
  }

  predicate Less(a: Event, b: Event) { CursorLess(CursorOf(a), CursorOf(b)) }

  /** The comparison of the verifier: negative, zero or positive. */
  function Compare(a: Event, b: Event): int {
    if a.slot != b.slot then a.slot - b.slot
    else if a.signature != b.signature then if Before(a.signature, b.signature) then -1 else 1
    else a.eventIndex - b.eventIndex
  }

  lemma CursorsOrdered()
    ensures StrictOrder(CursorLess) && Total(CursorLess)
  {
    BeforeIsOrder();
  }

  lemma LessIsOrder()
    ensures StrictOrder(Less)
  {
    CursorsOrdered();
  }

  /** The verifier's comparison and the database's order are one order. */
  lemma OrdersAgree(a: Event, b: Event)
    ensures Compare(a, b) < 0 <==> Less(a, b)
    ensures Compare(a, b) > 0 <==> Less(b, a)
    ensures Compare(a, b) == 0 <==> CursorOf(a) == CursorOf(b)
  {
    BeforeIsOrder();
  }

  // ─── Fields ────────────────────────────────────────────────────────────────

  datatype Field =
    | KindField | SignatureField | SlotField | BlockTimeField | EventIndexField | MintField
    | SourceField | DestinationField | SenderField | RecipientField | AmountField
    | CodeField | ProgramErrorField | RuleSlotField
    | ActionField | TargetField | ReasonCodeField | CaseRefField | SignersField | AttestationMaxAgeField
    | IndexField | CurrencyField | AttestorField | AttestedAtField | ExpiresAtField
    | WalletField | TokenAccountField | AuthorityField | StatusField

  /** A field's value as JSON writes it; two values are written alike only when they are the same. */
  datatype Value =
    | Null
    | Str(text: string)
    | Num(number: int)
    | Name(code: RefusalCode)
    | Verb(action: ComplianceAction)
    | KindName(kind: nat)
    | StatusEntry(status: HolderStatus)
    | List(items: seq<string>)

  function OrNull<T>(o: Option<T>, write: T -> Value): Value {
    match o
    case None => Null
    case Some(x) => write(x)
  }

  function Amount(n: nat): Value { Str(Text(n)) }

  function PartiesFields(p: Parties): map<Field, Value> {
    map[SourceField := Str(p.source), DestinationField := Str(p.destination), SenderField := Str(p.sender),
        RecipientField := Str(p.recipient), AmountField := Amount(p.amount)]
  }

  function KindOfBody(b: Body): nat {
    match b
    case Transfer(_) => 0
    case Refusal(_, _, _, _) => 1
    case Compliance(_, _, _, _, _, _, _) => 2
    case Attestation(_, _, _, _, _, _) => 3
    case Thaw(_, _, _, _) => 4
    case StatusChange(_, _, _) => 5
  }

  function BodyFields(b: Body): map<Field, Value> {
    match b
    case Transfer(p) => PartiesFields(p)
    case Refusal(p, code, error, slot) =>
      PartiesFields(p)[CodeField := OrNull(code, c => Name(c))][ProgramErrorField := OrNull(error, n => Num(n))]
        [RuleSlotField := OrNull(slot, (n: nat) => Num(n))]
    case Compliance(action, target, quantity, reason, caseRef, signers, age) =>
      var always := map[ActionField := Verb(action), TargetField := OrNull(target, t => Str(t)),
                        AmountField := OrNull(quantity, n => Amount(n)), ReasonCodeField := Str(reason),
                        CaseRefField := Str(caseRef), SignersField := List(signers)];
      if age.Some? then always[AttestationMaxAgeField := Num(age.value)] else always
    case Attestation(index, reserve, currency, attestor, at, until) =>
      map[IndexField := Num(index), AmountField := Amount(reserve), CurrencyField := Str(currency),
          AttestorField := Str(attestor), AttestedAtField := Num(at), ExpiresAtField := Num(until)]
    case Thaw(wallet, account, authority, first) =>
      map[WalletField := Str(wallet), TokenAccountField := Str(account), AuthorityField := Str(authority),
          StatusField := OrNull(first, s => StatusEntry(s))]
    case StatusChange(wallet, authority, status) =>
      map[WalletField := Str(wallet), AuthorityField := Str(authority), StatusField := StatusEntry(status)]
  }

  /** The event as a flat record of fields. */
  function FieldsOf(e: Event): map<Field, Value> {
    BodyFields(e.body)
      [KindField := KindName(KindOfBody(e.body))][SignatureField := Str(e.signature)][SlotField := Num(e.slot)]
      [BlockTimeField := OrNull(e.blockTime, n => Num(n))][EventIndexField := Num(e.eventIndex)][MintField := Str(e.mint)]
  }

  function ValueOf(fields: map<Field, Value>, field: Field): Option<Value> {
    if field in fields then Some(fields[field]) else None
  }

  /** The fields in which two events differ, those only one of them has included. */
  function Differences(a: Event, b: Event): set<Field> {
    set f | f in FieldsOf(a).Keys + FieldsOf(b).Keys && ValueOf(FieldsOf(a), f) != ValueOf(FieldsOf(b), f)
  }

  lemma AmountIdentifies(m: nat, n: nat)
    requires Amount(m) == Amount(n)
    ensures m == n
  {
    NumberOfText(m);
    NumberOfText(n);
  }

  ghost predicate SameFields(a: Event, b: Event) {
    forall f: Field :: ValueOf(FieldsOf(a), f) == ValueOf(FieldsOf(b), f)
  }

  lemma EnvelopeFields(e: Event)
    ensures ValueOf(FieldsOf(e), KindField) == Some(KindName(KindOfBody(e.body)))
    ensures ValueOf(FieldsOf(e), SignatureField) == Some(Str(e.signature))
    ensures ValueOf(FieldsOf(e), SlotField) == Some(Num(e.slot))
    ensures ValueOf(FieldsOf(e), BlockTimeField) == Some(OrNull(e.blockTime, n => Num(n)))
    ensures ValueOf(FieldsOf(e), EventIndexField) == Some(Num(e.eventIndex))
    ensures ValueOf(FieldsOf(e), MintField) == Some(Str(e.mint))
  {
  }

  lemma SameEnvelope(a: Event, b: Event)
    requires SameFields(a, b)
    ensures KindOfBody(a.body) == KindOfBody(b.body)
    ensures a == b.(body := a.body)
  {
    EnvelopeFields(a);
    EnvelopeFields(b);
    assert ValueOf(FieldsOf(a), KindField) == ValueOf(FieldsOf(b), KindField);
    assert ValueOf(FieldsOf(a), SignatureField) == ValueOf(FieldsOf(b), SignatureField);
    assert ValueOf(FieldsOf(a), SlotField) == ValueOf(FieldsOf(b), SlotField);
    assert ValueOf(FieldsOf(a), BlockTimeField) == ValueOf(FieldsOf(b), BlockTimeField);
    assert ValueOf(FieldsOf(a), EventIndexField) == ValueOf(FieldsOf(b), EventIndexField);
    assert ValueOf(FieldsOf(a), MintField) == ValueOf(FieldsOf(b), MintField);
  }

  predicate IsEnvelope(f: Field) {
    f in {KindField, SignatureField, SlotField, BlockTimeField, EventIndexField, MintField}
  }

  lemma BodyFieldsSame(a: Event, b: Event)
    requires SameFields(a, b)
    ensures forall f: Field :: !IsEnvelope(f) ==> ValueOf(BodyFields(a.body), f) == ValueOf(BodyFields(b.body), f)
  {
    forall f: Field | !IsEnvelope(f) ensures ValueOf(BodyFields(a.body), f) == ValueOf(BodyFields(b.body), f) {
      assert ValueOf(FieldsOf(a), f) == ValueOf(FieldsOf(b), f);
    }
  }

  lemma SamePartiesFields(p: Parties, q: Parties)
    requires ValueOf(PartiesFields(p), SourceField) == ValueOf(PartiesFields(q), SourceField)
    requires ValueOf(PartiesFields(p), DestinationField) == ValueOf(PartiesFields(q), DestinationField)
    requires ValueOf(PartiesFields(p), SenderField) == ValueOf(PartiesFields(q), SenderField)
    requires ValueOf(PartiesFields(p), RecipientField) == ValueOf(PartiesFields(q), RecipientField)
    requires ValueOf(PartiesFields(p), AmountField) == ValueOf(PartiesFields(q), AmountField)
    ensures p == q
  {
    AmountIdentifies(p.amount, q.amount);
  }

  ghost predicate SameBodyFields(a: Body, b: Body) {
    forall f: Field :: !IsEnvelope(f) ==> ValueOf(BodyFields(a), f) == ValueOf(BodyFields(b), f)
  }

  lemma SameTransfer(a: Body, b: Body)
    requires a.Transfer? && b.Transfer? && SameBodyFields(a, b)
    ensures a == b
  {
    assert ValueOf(BodyFields(a), SourceField) == ValueOf(BodyFields(b), SourceField);
    SamePartiesFields(a.parties, b.parties);
  }

  lemma SameRefusal(a: Body, b: Body)
    requires a.Refusal? && b.Refusal? && SameBodyFields(a, b)
    ensures a == b
  {
    assert forall f :: f in {SourceField, DestinationField, SenderField, RecipientField, AmountField} ==>
        ValueOf(PartiesFields(a.parties), f) == ValueOf(BodyFields(a), f)
        && ValueOf(PartiesFields(b.parties), f) == ValueOf(BodyFields(b), f);
    SamePartiesFields(a.parties, b.parties);
    assert ValueOf(BodyFields(a), CodeField) == ValueOf(BodyFields(b), CodeField);
    assert ValueOf(BodyFields(a), ProgramErrorField) == ValueOf(BodyFields(b), ProgramErrorField);
    assert ValueOf(BodyFields(a), RuleSlotField) == ValueOf(BodyFields(b), RuleSlotField);
  }

  lemma SameCompliance(a: Body, b: Body)
    requires a.Compliance? && b.Compliance? && SameBodyFields(a, b)
    ensures a == b
  {
    assert ValueOf(BodyFields(a), ActionField) == ValueOf(BodyFields(b), ActionField);
    assert ValueOf(BodyFields(a), TargetField) == ValueOf(BodyFields(b), TargetField);
    assert ValueOf(BodyFields(a), AmountField) == ValueOf(BodyFields(b), AmountField);
    assert ValueOf(BodyFields(a), ReasonCodeField) == ValueOf(BodyFields(b), ReasonCodeField);
    assert ValueOf(BodyFields(a), CaseRefField) == ValueOf(BodyFields(b), CaseRefField);
    assert ValueOf(BodyFields(a), SignersField) == ValueOf(BodyFields(b), SignersField);
    assert ValueOf(BodyFields(a), AttestationMaxAgeField) == ValueOf(BodyFields(b), AttestationMaxAgeField);
    if a.quantity.Some? && b.quantity.Some? { AmountIdentifies(a.quantity.value, b.quantity.value); }
  }

  lemma SameAttestation(a: Body, b: Body)
    requires a.Attestation? && b.Attestation? && SameBodyFields(a, b)
    ensures a == b
  {
    assert ValueOf(BodyFields(a), IndexField) == ValueOf(BodyFields(b), IndexField);
    assert ValueOf(BodyFields(a), AmountField) == ValueOf(BodyFields(b), AmountField);
    assert ValueOf(BodyFields(a), CurrencyField) == ValueOf(BodyFields(b), CurrencyField);
    assert ValueOf(BodyFields(a), AttestorField) == ValueOf(BodyFields(b), AttestorField);
    assert ValueOf(BodyFields(a), AttestedAtField) == ValueOf(BodyFields(b), AttestedAtField);
    assert ValueOf(BodyFields(a), ExpiresAtField) == ValueOf(BodyFields(b), ExpiresAtField);
    AmountIdentifies(a.reserve, b.reserve);
  }

  lemma SameOnboarding(a: Body, b: Body)
    requires (a.Thaw? && b.Thaw?) || (a.StatusChange? && b.StatusChange?)
    requires SameBodyFields(a, b)
    ensures a == b
  {
    assert ValueOf(BodyFields(a), WalletField) == ValueOf(BodyFields(b), WalletField);
    assert ValueOf(BodyFields(a), TokenAccountField) == ValueOf(BodyFields(b), TokenAccountField);
    assert ValueOf(BodyFields(a), AuthorityField) == ValueOf(BodyFields(b), AuthorityField);
    assert ValueOf(BodyFields(a), StatusField) == ValueOf(BodyFields(b), StatusField);
  }

  /** No field differs exactly when the events are the same. */
  lemma NoDifferences(a: Event, b: Event)
    ensures Differences(a, b) == {} <==> a == b
  {
    if Differences(a, b) == {} {
      forall f: Field ensures ValueOf(FieldsOf(a), f) == ValueOf(FieldsOf(b), f) {
        assert f !in Differences(a, b);
      }
      SameEnvelope(a, b);
      BodyFieldsSame(a, b);
      match a.body
      case Transfer(_) => SameTransfer(a.body, b.body);
      case Refusal(_, _, _, _) => SameRefusal(a.body, b.body);
      case Compliance(_, _, _, _, _, _, _) => SameCompliance(a.body, b.body);
      case Attestation(_, _, _, _, _, _) => SameAttestation(a.body, b.body);
      case Thaw(_, _, _, _) => SameOnboarding(a.body, b.body);
      case StatusChange(_, _, _) => SameOnboarding(a.body, b.body);
    }
  }

  predicate EnvelopeEdited(a: Event, b: Event, f: Field) {
    match f
    case SignatureField => b == a.(signature := b.signature)
    case SlotField => b == a.(slot := b.slot)
    case BlockTimeField => b == a.(blockTime := b.blockTime)
    case EventIndexField => b == a.(eventIndex := b.eventIndex)
    case MintField => b == a.(mint := b.mint)
    case _ => false
  }

  predicate PartiesEdited(p: Parties, q: Parties, f: Field) {
    match f
    case SourceField => q == p.(source := q.source)
    case DestinationField => q == p.(destination := q.destination)
    case SenderField => q == p.(sender := q.sender)
    case RecipientField => q == p.(recipient := q.recipient)
    case AmountField => q == p.(amount := q.amount)
    case _ => false
  }

  predicate RefusalEdited(p: Body, q: Body, f: Field)
    requires p.Refusal? && q.Refusal?
  {
    match f
    case CodeField => q == p.(code := q.code)
    case ProgramErrorField => q == p.(programError := q.programError)
    case RuleSlotField => q == p.(ruleSlot := q.ruleSlot)
    case _ => q == p.(parties := q.parties) && PartiesEdited(p.parties, q.parties, f)
  }

  predicate ComplianceEdited(p: Body, q: Body, f: Field)
    requires p.Compliance? && q.Compliance?
  {
    match f
    case ActionField => q == p.(action := q.action)
    case TargetField => q == p.(target := q.target)
    case AmountField => q == p.(quantity := q.quantity)
    case ReasonCodeField => q == p.(reasonCode := q.reasonCode)
    case CaseRefField => q == p.(caseRef := q.caseRef)
    case SignersField => q == p.(signers := q.signers)
    case AttestationMaxAgeField => q == p.(attestationMaxAge := q.attestationMaxAge)
    case _ => false
  }

  predicate AttestationEdited(p: Body, q: Body, f: Field)
    requires p.Attestation? && q.Attestation?
  {
    match f
    case IndexField => q == p.(index := q.index)
    case AmountField => q == p.(reserve := q.reserve)
    case CurrencyField => q == p.(currency := q.currency)
    case AttestorField => q == p.(attestor := q.attestor)
    case AttestedAtField => q == p.(attestedAt := q.attestedAt)
    case ExpiresAtField => q == p.(validUntil := q.validUntil)
    case _ => false
  }

  predicate ThawEdited(p: Body, q: Body, f: Field)
    requires p.Thaw? && q.Thaw?
  {
    match f
    case WalletField => q == Thaw(q.wallet, p.tokenAccount, p.authority, p.first)
    case TokenAccountField => q == Thaw(p.wallet, q.tokenAccount, p.authority, p.first)
    case AuthorityField => q == Thaw(p.wallet, p.tokenAccount, q.authority, p.first)
    case StatusField => q == Thaw(p.wallet, p.tokenAccount, p.authority, q.first)
    case _ => false
  }

  predicate StatusEdited(p: Body, q: Body, f: Field)
    requires p.StatusChange? && q.StatusChange?
  {
    match f
    case WalletField => q == StatusChange(q.wallet, p.authority, p.status)
    case AuthorityField => q == StatusChange(p.wallet, q.authority, p.status)
    case StatusField => q == StatusChange(p.wallet, p.authority, q.status)
    case _ => false
  }

  predicate BodyEdited(p: Body, q: Body, f: Field) {
    || (p.Transfer? && q.Transfer? && PartiesEdited(p.parties, q.parties, f))
    || (p.Refusal? && q.Refusal? && RefusalEdited(p, q, f))
    || (p.Compliance? && q.Compliance? && ComplianceEdited(p, q, f))
    || (p.Attestation? && q.Attestation? && AttestationEdited(p, q, f))
    || (p.Thaw? && q.Thaw? && ThawEdited(p, q, f))
    || (p.StatusChange? && q.StatusChange? && StatusEdited(p, q, f))
  }

  /** The second event is the first with the value of this one field edited. */
  predicate EditedAt(a: Event, b: Event, f: Field) {
    a != b && (EnvelopeEdited(a, b, f) || (b == a.(body := b.body) && BodyEdited(a.body, b.body, f)))
  }

  lemma OnlyAt(a: Event, b: Event, f: Field)
    requires forall g: Field :: g != f ==> ValueOf(FieldsOf(a), g) == ValueOf(FieldsOf(b), g)
    ensures Differences(a, b) <= {f}
  {
  }

  lemma EnvelopeEditAlone(a: Event, b: Event, f: Field, g: Field)
    requires EnvelopeEdited(a, b, f) && f != g
    ensures ValueOf(FieldsOf(a), g) == ValueOf(FieldsOf(b), g)
  {
    FieldIs(a, g);
    FieldIs(b, g);
  }

  lemma BodyEditAlone(a: Event, b: Event, g: Field)
    requires b == a.(body := b.body) && KindOfBody(a.body) == KindOfBody(b.body)
    requires ValueOf(BodyFields(a.body), g) == ValueOf(BodyFields(b.body), g)
    ensures ValueOf(FieldsOf(a), g) == ValueOf(FieldsOf(b), g)
  {
    FieldIs(a, g);
    FieldIs(b, g);
  }

  lemma FieldIs(e: Event, g: Field)
    ensures !IsEnvelope(g) ==> ValueOf(FieldsOf(e), g) == ValueOf(BodyFields(e.body), g)
  {
  }

  lemma PartiesEdit(p: Parties, q: Parties, f: Field, g: Field)
    requires PartiesEdited(p, q, f) && f != g
    ensures ValueOf(PartiesFields(p), g) == ValueOf(PartiesFields(q), g)
  {
  }

  lemma RefusalFieldIs(b: Body, g: Field)
    requires b.Refusal?
    ensures
      ValueOf(BodyFields(b), g)
      == match g
         case CodeField => Some(OrNull(b.code, c => Name(c)))
         case ProgramErrorField => Some(OrNull(b.programError, n => Num(n)))
         case RuleSlotField => Some(OrNull(b.ruleSlot, (n: nat) => Num(n)))
         case _ => ValueOf(PartiesFields(b.parties), g)
  {
  }

  lemma RefusalEdit(p: Body, q: Body, f: Field, g: Field)
    requires p.Refusal? && q.Refusal? && RefusalEdited(p, q, f) && f != g
    ensures ValueOf(BodyFields(p), g) == ValueOf(BodyFields(q), g)
  {
    RefusalFieldIs(p, g);
    RefusalFieldIs(q, g);
    if PartiesEdited(p.parties, q.parties, f) { PartiesEdit(p.parties, q.parties, f, g); }
  }

  lemma ComplianceFieldIs(b: Body, g: Field)
    requires b.Compliance?
    ensures
      ValueOf(BodyFields(b), g)
      == match g
         case ActionField => Some(Verb(b.action))
         case TargetField => Some(OrNull(b.target, t => Str(t)))
         case AmountField => Some(OrNull(b.quantity, n => Amount(n)))
         case ReasonCodeField => Some(Str(b.reasonCode))
         case CaseRefField => Some(Str(b.caseRef))
         case SignersField => Some(List(b.signers))
         case AttestationMaxAgeField => if b.attestationMaxAge.Some? then Some(Num(b.attestationMaxAge.value)) else None
         case _ => None
  {
  }

  lemma ComplianceEdit(p: Body, q: Body, f: Field, g: Field)
    requires p.Compliance? && q.Compliance? && ComplianceEdited(p, q, f) && f != g
    ensures ValueOf(BodyFields(p), g) == ValueOf(BodyFields(q), g)
  {
    ComplianceFieldIs(p, g);
    ComplianceFieldIs(q, g);
  }

  lemma AttestationEdit(p: Body, q: Body, f: Field, g: Field)
    requires p.Attestation? && q.Attestation? && AttestationEdited(p, q, f) && f != g
    ensures ValueOf(BodyFields(p), g) == ValueOf(BodyFields(q), g)
  {
  }

  lemma ThawEdit(p: Body, q: Body, f: Field, g: Field)
    requires p.Thaw? && q.Thaw? && ThawEdited(p, q, f) && f != g
    ensures ValueOf(BodyFields(p), g) == ValueOf(BodyFields(q), g)
  {
  }

  lemma StatusEdit(p: Body, q: Body, f: Field, g: Field)
    requires p.StatusChange? && q.StatusChange? && StatusEdited(p, q, f) && f != g
    ensures ValueOf(BodyFields(p), g) == ValueOf(BodyFields(q), g)
  {
  }

  lemma OthersKept(a: Event, b: Event, f: Field, g: Field)
    requires EditedAt(a, b, f) && f != g
    ensures ValueOf(FieldsOf(a), g) == ValueOf(FieldsOf(b), g)
  {
    if EnvelopeEdited(a, b, f) {
      EnvelopeEditAlone(a, b, f, g);
    } else {
      match a.body {
        case Transfer(parties) => PartiesEdit(parties, b.body.parties, f, g);
        case Refusal(_, _, _, _) => RefusalEdit(a.body, b.body, f, g);
        case Compliance(_, _, _, _, _, _, _) => ComplianceEdit(a.body, b.body, f, g);
        case Attestation(_, _, _, _, _, _) => AttestationEdit(a.body, b.body, f, g);
        case Thaw(_, _, _, _) => ThawEdit(a.body, b.body, f, g);
        case StatusChange(_, _, _) => StatusEdit(a.body, b.body, f, g);
      }
      BodyEditAlone(a, b, g);
    }
  }

  /** An edit of one field is reported as a difference in exactly that field. */
  lemma EditIsNamed(a: Event, b: Event, f: Field)
    requires EditedAt(a, b, f)
    ensures Differences(a, b) == {f}
  {
    NoDifferences(a, b);
    forall g: Field | g != f ensures ValueOf(FieldsOf(a), g) == ValueOf(FieldsOf(b), g) { OthersKept(a, b, f, g); }
    OnlyAt(a, b, f);
    var d :| d in Differences(a, b);
    assert Differences(a, b) == {f};
  }
}

/** The journal's lines (packages/shared/src/journal/index.ts). */
module JournalFormat {
  import opened Events

  /** What an export claims to be; it comes from the side that wrote the lines and is trusted with nothing. */
  datatype Manifest = Manifest(
    issuerId: string, mint: string, programId: string, fromSlot: nat, toSlot: nat, count: nat, indexedThroughSlot: nat)

  /** A line as it parses: not JSON, JSON of no known shape, the manifest or an event. */
  datatype Line = NotJson | NotALine | ManifestLine(manifest: Manifest) | EventLine(event: Event)

  function EventLines(events: seq<Event>): (r: seq<Line>)
    ensures |r| == |events|
  {
    seq(|events|, i requires 0 <= i < |events| => EventLine(events[i]))
  }

  /** A file: the manifest, then the events. */
  function FileOf(manifest: Manifest, events: seq<Event>): seq<Line> {
    [ManifestLine(manifest)] + EventLines(events)
  }
}
