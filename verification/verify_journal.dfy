/** Reconciling a file with the chain, line by line and event by event (tools/verify-journal/src/verify.ts). */
module VerifyJournal {
  import opened Common
  import opened Ordering
  import opened Events
  import opened JournalFormat
  import opened JournalFile
  import opened ChainIndex
  import opened Transactions

  // ─── The chain ─────────────────────────────────────────────────────────────

  datatype TokenFacts = TokenFacts(mint: string, issuerId: string)

  datatype Fetched = Thrown(message: string) | Absent | Present(response: Response)

  /** What the network answers: the highest finalized slot, the program's index request by request, transactions and accounts. */
  datatype Chain = Chain(
    finalizedSlot: nat,
    index: nat -> seq<Mention>,
    transaction: string -> Fetched,
    oracle: Oracle,
    tokenAt: string -> Option<TokenFacts>,
    tokenConfig: (string, string) -> string,
    issuerConfig: (string, string) -> string)

  datatype Why = FetchFailed(message: string) | NotOnChain | CannotRead(error: Unreadable) | NoSuchEvent

  datatype Reading = Shown(reading: ChainReading) | Unread(why: Why)

  function ReadingOf(chain: Chain, programId: string, signature: string): Reading {
    match chain.transaction(signature)
    case Thrown(message) => Unread(FetchFailed(message))
    case Absent => Unread(NotOnChain)
    case Present(response) =>
      match ReadTransaction(signature, response, programId, chain.oracle)
      case Err(e) => Unread(CannotRead(e))
      case Ok(reading) => Shown(reading)
  }

  function Reader(chain: Chain, programId: string): string -> Reading {
    (signature: string) => ReadingOf(chain, programId, signature)
  }

  /** Every reading is of its own transaction, numbered from zero. */
  ghost predicate ReadsOwn(read: string -> Reading) {
    forall signature: string :: read(signature).Shown? ==>
      exists slot :: Numbered(signature, slot, read(signature).reading.events)
  }

  lemma ReaderReadsOwn(chain: Chain, programId: string)
    ensures ReadsOwn(Reader(chain, programId))
  {
    var read := Reader(chain, programId);
    forall signature: string | read(signature).Shown?
      ensures exists slot :: Numbered(signature, slot, read(signature).reading.events)
    {
      var response := chain.transaction(signature).response;
      ReadingIsNumbered(signature, response, programId, chain.oracle);
      assert Numbered(signature, response.slot, read(signature).reading.events);
    }
  }

  /** The chain shows this very event. */
  predicate Shows(read: string -> Reading, e: Event) {
    read(e.signature).Shown? && e in read(e.signature).reading.events
  }

  /** The event the chain shows under an event's key, if it is one of the mint. */
  function Counterpart(read: string -> Reading, mint: string, e: Event): Option<Event> {
    if read(e.signature).Shown? && e.eventIndex < |read(e.signature).reading.events|
       && read(e.signature).reading.events[e.eventIndex].mint == mint
    then Some(read(e.signature).reading.events[e.eventIndex])
    else None
  }

  lemma CounterpartIsUnique(read: string -> Reading, mint: string, e: Event)
    requires ReadsOwn(read)
    ensures Counterpart(read, mint, e).Some? ==>
              Shows(read, Counterpart(read, mint, e).value) && KeyOf(Counterpart(read, mint, e).value) == KeyOf(e)
              && Counterpart(read, mint, e).value.mint == mint
    ensures forall f :: Shows(read, f) && f.mint == mint && KeyOf(f) == KeyOf(e) ==> Counterpart(read, mint, e) == Some(f)
  {
    if Counterpart(read, mint, e).Some? { KeyIdentifies(Counterpart(read, mint, e).value, e); }
    forall f | Shows(read, f) && f.mint == mint && KeyOf(f) == KeyOf(e) ensures Counterpart(read, mint, e) == Some(f) {
      KeyIdentifies(f, e);
      var slot :| Numbered(f.signature, slot, read(f.signature).reading.events);
      var i :| 0 <= i < |read(f.signature).reading.events| && read(f.signature).reading.events[i] == f;
      assert f.eventIndex == i;
    }
  }

  // ─── Reading the transactions in a pool ────────────────────────────────────

  /** Each name once, in the order of its first appearance. */
  method Unique(names: seq<string>) returns (r: seq<string>)
    ensures Distinct(r) && forall x :: x in r <==> x in names
  {
    r := [];
    for i := 0 to |names|
      invariant Distinct(r) && forall x :: x in r <==> x in names[..i]
    {
      if names[i] !in r { r := r + [names[i]]; }
    }
  }

  lemma TakenOut(s: seq<string>, k: nat)
    requires k < |s|
    ensures multiset(s[..k] + s[k + 1..]) + multiset{s[k]} == multiset(s)
  {
    assert s == s[..k] + [s[k]] + s[k + 1..];
  }

  method Fetch(chain: Chain, programId: string, signature: string) returns (r: Reading)
    ensures r == ReadingOf(chain, programId, signature)
  {
    var fetched := chain.transaction(signature);
    match fetched
    case Thrown(message) => r := Unread(FetchFailed(message));
    case Absent => r := Unread(NotOnChain);
    case Present(response) =>
      var reading := Transactions.Read(signature, response, programId, chain.oracle);
      r := if reading.Err? then Unread(CannotRead(reading.error)) else Shown(reading.value);
  }

  /** What the signatures read so far gave. */
  ghost predicate AreReadings(readings: map<string, Reading>, order: seq<string>, read: string -> Reading) {
    (forall s :: s in readings <==> s in order) && forall s :: s in order ==> readings[s] == read(s)
  }

  /** Every signature taken from the list is either read or with one lane. */
  ghost predicate Pooled(signatures: seq<string>, next: nat, busy: seq<string>, order: seq<string>) {
    && next <= |signatures| && (busy == [] ==> next == |signatures|)
    && multiset(order) + multiset(busy) == multiset(signatures[..next])
  }

  lemma LaneTakes(signatures: seq<string>, next: nat, busy: seq<string>, order: seq<string>, lane: nat, after: nat)
    requires Pooled(signatures, next, busy, order) && lane < |busy| && next < |signatures| && after == next + 1
    ensures Pooled(signatures, after, busy[lane := signatures[next]], order + [busy[lane]])
  {
    assert signatures[..after] == signatures[..next] + [signatures[next]];
  }

  lemma LaneEnds(signatures: seq<string>, next: nat, busy: seq<string>, order: seq<string>, lane: nat)
    requires Pooled(signatures, next, busy, order) && lane < |busy| && next == |signatures|
    ensures Pooled(signatures, next, busy[..lane] + busy[lane + 1..], order + [busy[lane]])
  {
    TakenOut(busy, lane);
  }

  lemma LaneFinishes(signatures: seq<string>, next: nat, busy: seq<string>, order: seq<string>,
                     readings: map<string, Reading>, read: string -> Reading, lane: nat, after: nat, rest: seq<string>)
    requires Pooled(signatures, next, busy, order) && AreReadings(readings, order, read) && lane < |busy|
    requires
      if next < |signatures| then after == next + 1 && rest == busy[lane := signatures[next]]
      else after == next && rest == busy[..lane] + busy[lane + 1..]
    ensures Pooled(signatures, after, rest, order + [busy[lane]])
    ensures AreReadings(readings[busy[lane] := read(busy[lane])], order + [busy[lane]], read)
    ensures |signatures| - after + |rest| < |signatures| - next + |busy|
  {
    if next < |signatures| {
      LaneTakes(signatures, next, busy, order, lane, after);
    } else {
      LaneEnds(signatures, next, busy, order, lane);
    }
  }

  /**
   * Several lanes share the list: a lane that finishes takes the next signature. `finishing(k)`
   * picks which of the busy lanes is the k-th to finish. Whichever it is, every signature is read,
   * and each exactly once.
   */
  method InPool(signatures: seq<string>, size: int, chain: Chain, programId: string, finishing: nat -> nat)
    returns (readings: map<string, Reading>, order: seq<string>)
    ensures multiset(order) == multiset(signatures)
    ensures AreReadings(readings, order, Reader(chain, programId))
  {
    var lanes := Max(1, Min(size, |signatures|));
    var next := if |signatures| < lanes then |signatures| else lanes;
    var busy := signatures[..next];
    var step := 0;
    readings, order := map[], [];
    ghost var read := Reader(chain, programId);
    while busy != []
      invariant Pooled(signatures, next, busy, order) && AreReadings(readings, order, read)
      decreases |signatures| - next + |busy|
    {
      var lane := finishing(step) % |busy|;
      var signature := busy[lane];
      var reading := Fetch(chain, programId, signature);
      ghost var before, were := next, busy;
      if next < |signatures| {
        busy := busy[lane := signatures[next]];
        next := next + 1;
      } else {
        busy := busy[..lane] + busy[lane + 1..];
      }
      LaneFinishes(signatures, before, were, order, readings, read, lane, next, busy);
      readings := readings[signature := reading];
      order := order + [signature];
      step := step + 1;
    }
    assert signatures[..next] == signatures;
  }

  // ─── The events of the mint, by key ────────────────────────────────────────

  function EventsOfMint(mint: string): Event -> bool { (e: Event) => e.mint == mint }

  /** Every event of the mint in these transactions, one transaction after the other. */
  function MintEvents(read: string -> Reading, mint: string, signatures: seq<string>): seq<Event> {
    if signatures == [] then []
    else
      var last := read(signatures[|signatures| - 1]);
      MintEvents(read, mint, signatures[..|signatures| - 1])
      + if last.Shown? then Filter(last.reading.events, EventsOfMint(mint)) else []
  }

  lemma {:induction false} MintEventsAre(read: string -> Reading, mint: string, signatures: seq<string>)
    requires ReadsOwn(read)
    ensures forall e :: e in MintEvents(read, mint, signatures) <==>
              Shows(read, e) && e.mint == mint && e.signature in signatures
  {
    if signatures != [] {
      var n := |signatures| - 1;
      var signature := signatures[n];
      MintEventsAre(read, mint, signatures[..n]);
      assert forall s :: s in signatures <==> s in signatures[..n] || s == signature;
      if read(signature).Shown? {
        var slot :| Numbered(signature, slot, read(signature).reading.events);
        assert forall e :: e in read(signature).reading.events ==> e.signature == signature;
      }
    }
  }

  /** The map holds exactly these events, each under its key. */
  ghost predicate IsMapOf(onChain: map<string, Event>, events: seq<Event>) {
    && (forall key :: key in onChain ==> onChain[key] in events && KeyOf(onChain[key]) == key)
    && (forall e :: e in events ==> KeyOf(e) in onChain && onChain[KeyOf(e)] == e)
  }

  ghost predicate KeysTell(events: seq<Event>) {
    forall e, f :: e in events && f in events && KeyOf(e) == KeyOf(f) ==> e == f
  }

  lemma ShownKeysTell(read: string -> Reading, mint: string, signatures: seq<string>)
    requires ReadsOwn(read)
    ensures KeysTell(MintEvents(read, mint, signatures))
  {
    MintEventsAre(read, mint, signatures);
    var events := MintEvents(read, mint, signatures);
    forall e, f | e in events && f in events && KeyOf(e) == KeyOf(f) ensures e == f {
      CounterpartIsUnique(read, mint, e);
    }
  }

  lemma AddedUnderKey(onChain: map<string, Event>, have: seq<Event>, e: Event)
    requires IsMapOf(onChain, have) && KeysTell(have + [e])
    ensures IsMapOf(onChain[KeyOf(e) := e], have + [e])
  {
    assert e in have + [e];
  }

  method AddEvents(onChain: map<string, Event>, ghost have: seq<Event>, events: seq<Event>, mint: string)
    returns (r: map<string, Event>)
    requires IsMapOf(onChain, have) && KeysTell(have + Filter(events, EventsOfMint(mint)))
    ensures IsMapOf(r, have + Filter(events, EventsOfMint(mint)))
  {
    r := onChain;
    ghost var p := EventsOfMint(mint);
    for i := 0 to |events|
      invariant IsMapOf(r, have + Filter(events[..i], p))
    {
      FilterNext(events, i, i + 1, p);
      FilterOfPrefix(events, i, p);
      FilterOfPrefix(events, i + 1, p);
      if events[i].mint == mint {
        AddedUnderKey(r, have + Filter(events[..i], p), events[i]);
        r := r[KeyOf(events[i]) := events[i]];
      }
    }
    assert events[..|events|] == events;
  }

  method MapEvents(order: seq<string>, readings: map<string, Reading>, ghost read: string -> Reading, mint: string)
    returns (onChain: map<string, Event>)
    requires ReadsOwn(read) && AreReadings(readings, order, read)
    ensures IsMapOf(onChain, MintEvents(read, mint, order))
  {
    onChain := map[];
    for i := 0 to |order|
      invariant IsMapOf(onChain, MintEvents(read, mint, order[..i]))
    {
      NextPrefix(order, i, i + 1);
      ShownKeysTell(read, mint, order[..i + 1]);
      var reading := readings[order[i]];
      if reading.Shown? {
        onChain := AddEvents(onChain, MintEvents(read, mint, order[..i]), reading.reading.events, mint);
      }
    }
    assert order[..|order|] == order;
  }

  // ─── Each line against the chain ───────────────────────────────────────────

  datatype LineVerdict = Confirms | Unconfirms(why: Why) | Differs(fields: set<Field>)

  function VerdictOf(read: string -> Reading, mint: string, e: Event): LineVerdict {
    match read(e.signature)
    case Unread(why) => Unconfirms(why)
    case Shown(_) =>
      match Counterpart(read, mint, e)
      case None => Unconfirms(NoSuchEvent)
      case Some(f) => if Differences(e, f) == {} then Confirms else Differs(Differences(e, f))
  }

  datatype UnconfirmedLine = UnconfirmedLine(line: nat, key: string, why: Why)

  datatype MismatchedLine = MismatchedLine(line: nat, key: string, fields: set<Field>)

  datatype Comparison = Comparison(
    confirmed: nat, unconfirmed: seq<UnconfirmedLine>, mismatched: seq<MismatchedLine>)

  /** A line's verdict lands in one of the report's three piles. */
  function Piled(c: Comparison, entry: Entry, verdict: LineVerdict): Comparison {
    var Entry(line, e) := entry;
    match verdict
    case Confirms => c.(confirmed := c.confirmed + 1)
    case Unconfirms(why) => c.(unconfirmed := c.unconfirmed + [UnconfirmedLine(line, KeyOf(e), why)])
    case Differs(fields) => c.(mismatched := c.mismatched + [MismatchedLine(line, KeyOf(e), fields)])
  }

  function Compared(read: string -> Reading, mint: string, entries: seq<Entry>): Comparison {
    if entries == [] then Comparison(0, [], [])
    else
      var last := entries[|entries| - 1];
      Piled(Compared(read, mint, entries[..|entries| - 1]), last, VerdictOf(read, mint, last.event))
  }

  /** Every line lands in exactly one pile. */
  lemma {:induction false} PilesAddUp(read: string -> Reading, mint: string, entries: seq<Entry>)
    ensures var c := Compared(read, mint, entries);
            c.confirmed + |c.unconfirmed| + |c.mismatched| == |entries|
  {
    if entries != [] { PilesAddUp(read, mint, entries[..|entries| - 1]); }
  }

  /** The chain shows nothing of the mint under this event's key, for this reason: it could not be read, or has no such event. */
  ghost predicate NotShownFor(read: string -> Reading, mint: string, e: Event, why: Why) {
    || read(e.signature) == Unread(why)
    || (read(e.signature).Shown? && why == NoSuchEvent
        && forall f :: Shows(read, f) && f.mint == mint ==> KeyOf(f) != KeyOf(e))
  }

  /** The chain shows an event of the mint under this event's key, and it differs in these fields. */
  ghost predicate ShownDifferent(read: string -> Reading, mint: string, e: Event, fields: set<Field>) {
    exists f :: Shows(read, f) && f.mint == mint && KeyOf(f) == KeyOf(e) && e != f && fields == Differences(e, f)
  }

  lemma VerdictMeans(read: string -> Reading, mint: string, e: Event)
    requires ReadsOwn(read)
    ensures
      match VerdictOf(read, mint, e)
      case Confirms => Shows(read, e) && e.mint == mint
      case Unconfirms(why) => NotShownFor(read, mint, e, why)
      case Differs(fields) => ShownDifferent(read, mint, e, fields)
  {
    CounterpartIsUnique(read, mint, e);
    var f := Counterpart(read, mint, e);
    if f.Some? { NoDifferences(e, f.value); }
  }

  ghost predicate IsUnconfirmed(read: string -> Reading, mint: string, entries: seq<Entry>, u: UnconfirmedLine) {
    exists i :: 0 <= i < |entries| && u.line == entries[i].line && u.key == KeyOf(entries[i].event)
                && NotShownFor(read, mint, entries[i].event, u.why)
  }

  ghost predicate IsMismatched(read: string -> Reading, mint: string, entries: seq<Entry>, d: MismatchedLine) {
    exists i :: 0 <= i < |entries| && d.line == entries[i].line && d.key == KeyOf(entries[i].event)
                && ShownDifferent(read, mint, entries[i].event, d.fields)
  }

  /** The line is in one of the two piles, or the chain shows its event as it stands. */
  ghost predicate IsAccounted(read: string -> Reading, mint: string, c: Comparison, entry: Entry) {
    || (Shows(read, entry.event) && entry.event.mint == mint)
    || (exists i :: 0 <= i < |c.unconfirmed| && c.unconfirmed[i].line == entry.line
                    && c.unconfirmed[i].key == KeyOf(entry.event))
    || (exists i :: 0 <= i < |c.mismatched| && c.mismatched[i].line == entry.line
                    && c.mismatched[i].key == KeyOf(entry.event))
  }

  lemma {:induction false} UnconfirmedHold(read: string -> Reading, mint: string, entries: seq<Entry>)
    requires ReadsOwn(read)
    ensures forall i :: 0 <= i < |Compared(read, mint, entries).unconfirmed| ==>
              IsUnconfirmed(read, mint, entries, Compared(read, mint, entries).unconfirmed[i])
  {
    if entries != [] {
      var n := |entries| - 1;
      UnconfirmedHold(read, mint, entries[..n]);
      VerdictMeans(read, mint, entries[n].event);
      var b, c := Compared(read, mint, entries[..n]), Compared(read, mint, entries);
      forall i | 0 <= i < |c.unconfirmed| ensures IsUnconfirmed(read, mint, entries, c.unconfirmed[i]) {
        if i < |b.unconfirmed| {
          assert IsUnconfirmed(read, mint, entries[..n], b.unconfirmed[i]);
          StillUnconfirmed(read, mint, entries, n, b.unconfirmed[i]);
        }
      }
    }
  }

  lemma StillUnconfirmed(read: string -> Reading, mint: string, entries: seq<Entry>, n: nat, u: UnconfirmedLine)
    requires n <= |entries| && IsUnconfirmed(read, mint, entries[..n], u)
    ensures IsUnconfirmed(read, mint, entries, u)
  {
    var i :| 0 <= i < n && u.line == entries[..n][i].line && u.key == KeyOf(entries[..n][i].event)
             && NotShownFor(read, mint, entries[..n][i].event, u.why);
    assert entries[..n][i] == entries[i];
  }

  lemma {:induction false} MismatchedHold(read: string -> Reading, mint: string, entries: seq<Entry>)
    requires ReadsOwn(read)
    ensures forall i :: 0 <= i < |Compared(read, mint, entries).mismatched| ==>
              IsMismatched(read, mint, entries, Compared(read, mint, entries).mismatched[i])
  {
    if entries != [] {
      var n := |entries| - 1;
      MismatchedHold(read, mint, entries[..n]);
      VerdictMeans(read, mint, entries[n].event);
      var b, c := Compared(read, mint, entries[..n]), Compared(read, mint, entries);
      forall i | 0 <= i < |c.mismatched| ensures IsMismatched(read, mint, entries, c.mismatched[i]) {
        if i < |b.mismatched| {
          assert IsMismatched(read, mint, entries[..n], b.mismatched[i]);
          StillMismatched(read, mint, entries, n, b.mismatched[i]);
        }
      }
    }
  }

  lemma StillMismatched(read: string -> Reading, mint: string, entries: seq<Entry>, n: nat, d: MismatchedLine)
    requires n <= |entries| && IsMismatched(read, mint, entries[..n], d)
    ensures IsMismatched(read, mint, entries, d)
  {
    var i :| 0 <= i < n && d.line == entries[..n][i].line && d.key == KeyOf(entries[..n][i].event)
             && ShownDifferent(read, mint, entries[..n][i].event, d.fields);
    assert entries[..n][i] == entries[i];
  }

  lemma {:induction false} LinesAccounted(read: string -> Reading, mint: string, entries: seq<Entry>)
    requires ReadsOwn(read)
    ensures forall i :: 0 <= i < |entries| ==> IsAccounted(read, mint, Compared(read, mint, entries), entries[i])
  {
    if entries != [] {
      var n := |entries| - 1;
      var b, last := Compared(read, mint, entries[..n]), entries[n];
      LinesAccounted(read, mint, entries[..n]);
      VerdictMeans(read, mint, last.event);
      forall i | 0 <= i < |entries| ensures IsAccounted(read, mint, Compared(read, mint, entries), entries[i]) {
        if i < n {
          assert entries[..n][i] == entries[i];
          StillAccounted(read, mint, b, last, VerdictOf(read, mint, last.event), entries[i]);
        } else {
          NowAccounted(read, mint, b, last);
        }
      }
    }
  }

  lemma StillAccounted(read: string -> Reading, mint: string, b: Comparison, last: Entry, verdict: LineVerdict, entry: Entry)
    requires IsAccounted(read, mint, b, entry)
    ensures IsAccounted(read, mint, Piled(b, last, verdict), entry)
  {
    var c := Piled(b, last, verdict);
    assert forall i :: 0 <= i < |b.unconfirmed| ==> c.unconfirmed[i] == b.unconfirmed[i];
    assert forall i :: 0 <= i < |b.mismatched| ==> c.mismatched[i] == b.mismatched[i];
  }

  lemma NowAccounted(read: string -> Reading, mint: string, b: Comparison, last: Entry)
    requires ReadsOwn(read)
    ensures IsAccounted(read, mint, Piled(b, last, VerdictOf(read, mint, last.event)), last)
  {
    VerdictMeans(read, mint, last.event);
    var c := Piled(b, last, VerdictOf(read, mint, last.event));
    match VerdictOf(read, mint, last.event)
    case Confirms =>
    case Unconfirms(why) => assert c.unconfirmed[|b.unconfirmed|] == UnconfirmedLine(last.line, KeyOf(last.event), why);
    case Differs(fields) => assert c.mismatched[|b.mismatched|] == MismatchedLine(last.line, KeyOf(last.event), fields);
  }

  /**
   * The piles line by line: an unconfirmed line is one the chain shows nothing for, with the reason,
   * a mismatched line one the chain shows differently, with the fields; and a line of the file that
   * the chain does not show as it stands is in one of the two.
   */
  lemma PilesHold(read: string -> Reading, mint: string, entries: seq<Entry>)
    requires ReadsOwn(read)
    ensures var c := Compared(read, mint, entries);
            && (forall i :: 0 <= i < |c.unconfirmed| ==> IsUnconfirmed(read, mint, entries, c.unconfirmed[i]))
            && (forall i :: 0 <= i < |c.mismatched| ==> IsMismatched(read, mint, entries, c.mismatched[i]))
            && (forall i :: 0 <= i < |entries| ==> IsAccounted(read, mint, c, entries[i]))
  {
    UnconfirmedHold(read, mint, entries);
    MismatchedHold(read, mint, entries);
    LinesAccounted(read, mint, entries);
  }

  /** Nothing is unconfirmed or mismatched exactly when the chain shows every line's event as it stands. */
  lemma {:induction false} NothingRefuted(read: string -> Reading, mint: string, entries: seq<Entry>)
    requires ReadsOwn(read)
    ensures var c := Compared(read, mint, entries);
            c.unconfirmed == [] && c.mismatched == [] <==>
            forall e :: e in EventsOf(entries) ==> Shows(read, e) && e.mint == mint
  {
    if entries != [] {
      var n := |entries| - 1;
      NothingRefuted(read, mint, entries[..n]);
      var e := entries[n].event;
      assert EventsOf(entries) == EventsOf(entries[..n]) + [e];
      CounterpartIsUnique(read, mint, e);
      var f := Counterpart(read, mint, e);
      if f.Some? { NoDifferences(e, f.value); }
      assert VerdictOf(read, mint, e) == Confirms <==> Shows(read, e) && e.mint == mint;
    }
  }

  lemma LookupIsCounterpart(read: string -> Reading, mint: string, order: seq<string>, onChain: map<string, Event>, e: Event)
    requires ReadsOwn(read) && IsMapOf(onChain, MintEvents(read, mint, order)) && e.signature in order
    ensures Counterpart(read, mint, e) == if KeyOf(e) in onChain then Some(onChain[KeyOf(e)]) else None
  {
    MintEventsAre(read, mint, order);
    CounterpartIsUnique(read, mint, e);
    var f := Counterpart(read, mint, e);
    if f.Some? {
      KeyIdentifies(f.value, e);
      assert f.value in MintEvents(read, mint, order);
    }
  }

  method CompareEntry(entry: Entry, readings: map<string, Reading>, ghost order: seq<string>, onChain: map<string, Event>,
                      ghost read: string -> Reading, mint: string, before: Comparison)
    returns (r: Comparison)
    requires ReadsOwn(read) && AreReadings(readings, order, read) && IsMapOf(onChain, MintEvents(read, mint, order))
    requires entry.event.signature in order
    ensures r == Piled(before, entry, VerdictOf(read, mint, entry.event))
  {
    r := before;
    var Entry(line, event) := entry;
    var key := KeyOf(event);
    LookupIsCounterpart(read, mint, order, onChain, event);
    var reading := readings[event.signature];
    if reading.Unread? {
      r := r.(unconfirmed := r.unconfirmed + [UnconfirmedLine(line, key, reading.why)]);
    } else if key !in onChain {
      r := r.(unconfirmed := r.unconfirmed + [UnconfirmedLine(line, key, NoSuchEvent)]);
    } else {
      var fields := Differences(event, onChain[key]);
      if fields == {} {
        r := r.(confirmed := r.confirmed + 1);
      } else {
        r := r.(mismatched := r.mismatched + [MismatchedLine(line, key, fields)]);
      }
    }
  }

  lemma ComparedNext(read: string -> Reading, mint: string, entries: seq<Entry>, i: nat, next: nat)
    requires next == i + 1 <= |entries|
    ensures Compared(read, mint, entries[..next])
            == Piled(Compared(read, mint, entries[..i]), entries[i], VerdictOf(read, mint, entries[i].event))
    ensures forall key :: KeyAmong(entries[..next], key) <==> KeyAmong(entries[..i], key) || key == KeyOf(entries[i].event)
  {
    NextPrefix(entries, i, next);
    KeysAfter(entries[..i], entries[i]);
  }

  method CompareEntries(entries: seq<Entry>, readings: map<string, Reading>, ghost order: seq<string>,
                        onChain: map<string, Event>, ghost read: string -> Reading, mint: string)
    returns (r: Comparison, inFile: set<string>)
    requires ReadsOwn(read) && AreReadings(readings, order, read) && IsMapOf(onChain, MintEvents(read, mint, order))
    requires forall i :: 0 <= i < |entries| ==> entries[i].event.signature in order
    ensures r == Compared(read, mint, entries)
    ensures forall key :: key in inFile <==> KeyAmong(entries, key)
  {
    r, inFile := Comparison(0, [], []), {};
    for i := 0 to |entries|
      invariant r == Compared(read, mint, entries[..i])
      invariant forall key :: key in inFile <==> KeyAmong(entries[..i], key)
    {
      ComparedNext(read, mint, entries, i, i + 1);
      inFile := inFile + {KeyOf(entries[i].event)};
      r := CompareEntry(entries[i], readings, order, onChain, read, mint, r);
    }
    assert entries[..|entries|] == entries;
  }

  // ─── What the file does not hold ───────────────────────────────────────────

  predicate InSlots(m: Manifest, slot: nat) { m.fromSlot <= slot <= m.toSlot }

  predicate Earlier(a: Event, b: Event) {
    a.slot < b.slot || (a.slot == b.slot && a.eventIndex < b.eventIndex)
  }

  /** Earliest first, by slot and then by event. */
  ghost predicate ByTime(events: seq<Event>) {
    forall i, j :: 0 <= i < j < |events| ==>
      events[i].slot < events[j].slot || (events[i].slot == events[j].slot && events[i].eventIndex <= events[j].eventIndex)
  }

  /** The events of the window on the chain whose keys the file lacks, earliest first; their order among ties is the pool's. */
  ghost predicate AreMissing(missing: seq<Event>, onChain: seq<Event>, m: Manifest, entries: seq<Entry>) {
    && Distinct(missing) && ByTime(missing)
    && forall e :: e in missing <==> e in onChain && InSlots(m, e.slot) && !KeyAmong(entries, KeyOf(e))
  }

  method Missing(onChain: map<string, Event>, ghost shown: seq<Event>, inFile: set<string>, m: Manifest,
                 ghost entries: seq<Entry>)
    returns (missing: seq<Event>)
    requires IsMapOf(onChain, shown) && forall key :: key in inFile <==> KeyAmong(entries, key)
    ensures AreMissing(missing, shown, m, entries)
  {
    missing := [];
    var left := onChain.Keys;
    while left != {}
      invariant left <= onChain.Keys && Distinct(missing)
      invariant forall e :: e in missing <==>
                  e in shown && KeyOf(e) !in left && InSlots(m, e.slot) && KeyOf(e) !in inFile
      decreases left
    {
      var key :| key in left;
      var event := onChain[key];
      if InSlots(m, event.slot) && key !in inFile { missing := missing + [event]; }
      left := left - {key};
    }
    SortDistinct(missing, Earlier);
    SortInOrder(missing, Earlier);
    SortMembers(missing, Earlier);
    missing := Sort(missing, Earlier);
  }

  datatype UnreadTransaction = UnreadTransaction(signature: string, why: Why)

  /** The transactions of the window that could not be read. */
  function UnreadOf(read: string -> Reading, mentions: seq<Mention>): seq<UnreadTransaction> {
    if mentions == [] then []
    else
      var signature := mentions[|mentions| - 1].signature;
      UnreadOf(read, mentions[..|mentions| - 1])
      + if read(signature).Unread? then [UnreadTransaction(signature, read(signature).why)] else []
  }

  lemma {:induction false} NothingUnread(read: string -> Reading, mentions: seq<Mention>)
    ensures UnreadOf(read, mentions) == [] <==> forall mention :: mention in mentions ==> read(mention.signature).Shown?
  {
    if mentions != [] {
      NothingUnread(read, mentions[..|mentions| - 1]);
      assert forall mention :: mention in mentions <==>
          mention in mentions[..|mentions| - 1] || mention == mentions[|mentions| - 1];
    }
  }

  method Unreadables(mentions: seq<Mention>, readings: map<string, Reading>, order: seq<string>, ghost read: string -> Reading)
    returns (r: seq<UnreadTransaction>)
    requires AreReadings(readings, order, read)
    requires forall i :: 0 <= i < |mentions| ==> mentions[i].signature in order
    ensures r == UnreadOf(read, mentions)
    ensures forall u :: u in r ==> u.signature in readings && readings[u.signature] == Unread(u.why)
  {
    r := [];
    for i := 0 to |mentions|
      invariant r == UnreadOf(read, mentions[..i])
      invariant forall u :: u in r ==> u.signature in readings && readings[u.signature] == Unread(u.why)
    {
      NextPrefix(mentions, i, i + 1);
      var reading := readings[mentions[i].signature];
      if reading.Unread? { r := r + [UnreadTransaction(mentions[i].signature, reading.why)]; }
    }
    assert mentions[..|mentions|] == mentions;
  }

  predicate Touches(u: Unjournalled, m: Manifest, ours: set<string>) {
    InSlots(m, u.slot) && exists i :: 0 <= i < |u.accounts| && u.accounts[i] in ours
  }

  method UnjournalledOf(order: seq<string>, readings: map<string, Reading>, ghost read: string -> Reading, m: Manifest,
                        ours: set<string>)
    returns (r: seq<Unjournalled>)
    requires AreReadings(readings, order, read)
    ensures forall names: set<string> :: (forall s :: s in names <==> s in order) ==> AreOutside(r, names, read, m, ours)
  {
    forall u ensures Touches(u, m, ours) <==> Concerns(u, m, ours) {}
    r := [];
    for i := 0 to |order|
      invariant forall u :: u in r <==>
                  Touches(u, m, ours) && exists s :: s in order[..i] && read(s).Shown? && u in read(s).reading.unjournalled
    {
      var reading := readings[order[i]];
      assert forall s :: s in order[..i + 1] <==> s in order[..i] || s == order[i];
      if reading.Shown? { r := r + Filter(reading.reading.unjournalled, u => Touches(u, m, ours)); }
    }
    assert order[..|order|] == order;
    SortInOrder(r, SlotBefore);
    SortMembers(r, SlotBefore);
    r := Sort(r, SlotBefore);
  }

  /** In the window, and with one of these accounts. */
  ghost predicate Concerns(u: Unjournalled, m: Manifest, ours: set<string>) {
    m.fromSlot <= u.slot <= m.toSlot && exists a :: a in u.accounts && a in ours
  }

  /** What the transactions of these names mention outside the journal that concerns the token, in the order of their slots. */
  ghost predicate AreOutside(r: seq<Unjournalled>, names: set<string>, read: string -> Reading, m: Manifest, ours: set<string>) {
    && InOrder(r, SlotBefore)
    && forall u :: u in r <==> Concerns(u, m, ours) && exists s :: s in names && read(s).Shown? && u in read(s).reading.unjournalled
  }

  predicate SlotBefore(a: Unjournalled, b: Unjournalled) { a.slot < b.slot }

  // ─── The report ────────────────────────────────────────────────────────────

  datatype Report = Report(
    manifest: Option<Manifest>, lines: nat, confirmed: nat, unconfirmed: seq<UnconfirmedLine>,
    mismatched: seq<MismatchedLine>, missing: seq<Event>, unreadable: seq<UnreadTransaction>,
    unjournalled: seq<Unjournalled>, problems: seq<Problem>, passed: bool)

  /** What the chain says against the manifest's own claims. */
  function ChainProblems(m: Manifest, chain: Chain, programId: string): seq<Problem> {
    var token := chain.tokenAt(chain.tokenConfig(m.mint, programId));
    If(m.programId != programId, OtherProgram)
    + (if token.None? then [NotAToken] else If(token.value.issuerId != m.issuerId, OtherIssuer))
    + If(m.toSlot > chain.finalizedSlot, NotFinalized)
  }

  function MentionsIn(chain: Chain, m: Manifest): seq<Mention> {
    Filter(chain.index(0), SlotsWithin(m.fromSlot, m.toSlot))
  }

  /** The signatures the verifier reads: the window's and the file's own. */
  function SignatureRead(chain: Chain, m: Manifest, entries: seq<Entry>): set<string> {
    (set mention | mention in MentionsIn(chain, m) :: mention.signature)
    + (set i | 0 <= i < |entries| :: entries[i].event.signature)
  }

  /** The accounts whose instructions concern this token. */
  function Ours(chain: Chain, m: Manifest, programId: string): set<string> {
    {m.mint, chain.tokenConfig(m.mint, programId), chain.issuerConfig(m.issuerId, programId)}
  }

  /** The report, up to the order among ties that the pool decides. */
  ghost predicate Describes(report: Report, lines: seq<Line>, chain: Chain, programId: string) {
    var entries := EntriesOf(lines);
    && report.manifest == ManifestOf(lines) && report.lines == |entries|
    && match ManifestOf(lines)
       case None =>
         report == Report(None, |entries|, 0, [], [], [], [], [], FileProblems(lines), false)
       case Some(m) =>
         var read := Reader(chain, programId);
         && Comparison(report.confirmed, report.unconfirmed, report.mismatched) == Compared(read, m.mint, entries)
         && report.unreadable == UnreadOf(read, MentionsIn(chain, m))
         && report.problems == FileProblems(lines) + ChainProblems(m, chain, programId)
         && Distinct(report.missing) && ByTime(report.missing)
         && (forall e :: e in report.missing <==>
               && Shows(read, e) && e.mint == m.mint && e.signature in SignatureRead(chain, m, entries)
               && InSlots(m, e.slot) && !KeyAmong(entries, KeyOf(e)))
         && AreOutside(report.unjournalled, SignatureRead(chain, m, entries), read, m, Ours(chain, m, programId))
         && (report.passed <==>
               && report.problems == [] && report.unconfirmed == [] && report.mismatched == []
               && report.missing == [] && report.unreadable == [])
  }

  lemma NamesAreSignatures(chain: Chain, m: Manifest, entries: seq<Entry>, names: seq<string>)
    requires names == SignaturesIn(MentionsIn(chain, m)) + SignaturesOf(entries)
    ensures forall s :: s in names <==> s in SignatureRead(chain, m, entries)
    ensures forall i :: 0 <= i < |entries| ==> entries[i].event.signature in names
    ensures forall i :: 0 <= i < |MentionsIn(chain, m)| ==> MentionsIn(chain, m)[i].signature in names
  {
    var mentions := MentionsIn(chain, m);
    forall i | 0 <= i < |entries| ensures entries[i].event.signature in names {
      assert SignaturesOf(entries)[i] in names;
    }
    forall i | 0 <= i < |mentions| ensures mentions[i].signature in names {
      assert SignaturesIn(mentions)[i] in names;
    }
    forall s | s in names ensures s in SignatureRead(chain, m, entries) {
      if s in SignaturesIn(mentions) {
        var i :| 0 <= i < |mentions| && SignaturesIn(mentions)[i] == s;
        assert mentions[i] in mentions;
      } else {
        var i :| 0 <= i < |entries| && SignaturesOf(entries)[i] == s;
      }
    }
    forall s | s in SignatureRead(chain, m, entries) ensures s in names {
      if mention :| mention in mentions && mention.signature == s {
        var i :| 0 <= i < |mentions| && mentions[i] == mention;
      }
    }
  }

  function SignaturesIn(mentions: seq<Mention>): (r: seq<string>)
    ensures |r| == |mentions|
  {
    seq(|mentions|, i requires 0 <= i < |mentions| => mentions[i].signature)
  }

  function SignaturesOf(entries: seq<Entry>): (r: seq<string>)
    ensures |r| == |entries|
  {
    seq(|entries|, i requires 0 <= i < |entries| => entries[i].event.signature)
  }

  lemma SameMembers(a: seq<string>, b: seq<string>)
    requires multiset(a) == multiset(b)
    ensures forall x :: x in a <==> x in b
  {
    forall x ensures x in a <==> x in b {
      assert x in a <==> x in multiset(a);
      assert x in b <==> x in multiset(b);
    }
  }

  lemma EmptyWindow(index: seq<Mention>, m: Manifest)
    requires m.fromSlot > m.toSlot
    ensures Filter(index, SlotsWithin(m.fromSlot, m.toSlot)) == []
  {
    NothingOlderThanNothing(index, m.fromSlot, m.toSlot);
  }

  lemma {:induction false} NothingOlderThanNothing(index: seq<Mention>, fromSlot: nat, toSlot: nat)
    requires fromSlot > toSlot
    ensures Filter(index, SlotsWithin(fromSlot, toSlot)) == []
  {
    if index != [] { NothingOlderThanNothing(index[1..], fromSlot, toSlot); }
  }

  /** What the reconciliation of a file with a manifest finds, before it is put into the report. */
  method Reconcile(m: Manifest, entries: seq<Entry>, mentions: seq<Mention>, chain: Chain, programId: string,
                   concurrency: int, finishing: nat -> nat)
    returns (c: Comparison, missing: seq<Event>, unreadable: seq<UnreadTransaction>, unjournalled: seq<Unjournalled>,
             ghost order: seq<string>)
    requires mentions == MentionsIn(chain, m)
    ensures forall s :: s in order <==> s in SignatureRead(chain, m, entries)
    ensures
      var read := Reader(chain, programId);
      && c == Compared(read, m.mint, entries)
      && AreMissing(missing, MintEvents(read, m.mint, order), m, entries)
      && unreadable == UnreadOf(read, mentions)
      && AreOutside(unjournalled, SignatureRead(chain, m, entries), read, m, Ours(chain, m, programId))
  {
    ghost var read := Reader(chain, programId);
    ReaderReadsOwn(chain, programId);
    var names := SignaturesIn(mentions) + SignaturesOf(entries);
    NamesAreSignatures(chain, m, entries, names);
    var signatures := Unique(names);
    var readings, done := InPool(signatures, concurrency, chain, programId, finishing);
    SameMembers(done, signatures);
    order := done;
    var onChain := MapEvents(done, readings, read, m.mint);
    unreadable := Unreadables(mentions, readings, done, read);
    unjournalled := UnjournalledOf(done, readings, read, m, Ours(chain, m, programId));
    var inFile: set<string>;
    c, inFile := CompareEntries(entries, readings, done, onChain, read, m.mint);
    missing := Missing(onChain, MintEvents(read, m.mint, done), inFile, m, entries);
  }

  method CheckClaims(m: Manifest, chain: Chain, programId: string) returns (problems: seq<Problem>)
    ensures problems == ChainProblems(m, chain, programId)
  {
    problems := [];
    if m.programId != programId { problems := problems + [OtherProgram]; }
    var token := chain.tokenAt(chain.tokenConfig(m.mint, programId));
    if token.None? {
      problems := problems + [NotAToken];
    } else if token.value.issuerId != m.issuerId {
      problems := problems + [OtherIssuer];
    }
    if m.toSlot > chain.finalizedSlot { problems := problems + [NotFinalized]; }
  }

  lemma MissingAre(missing: seq<Event>, order: seq<string>, chain: Chain, programId: string, m: Manifest, entries: seq<Entry>)
    requires forall s :: s in order <==> s in SignatureRead(chain, m, entries)
    requires AreMissing(missing, MintEvents(Reader(chain, programId), m.mint, order), m, entries)
    ensures Distinct(missing) && ByTime(missing)
    ensures forall e :: e in missing <==>
              && Shows(Reader(chain, programId), e) && e.mint == m.mint && e.signature in SignatureRead(chain, m, entries)
              && InSlots(m, e.slot) && !KeyAmong(entries, KeyOf(e))
  {
    ReaderReadsOwn(chain, programId);
    MintEventsAre(Reader(chain, programId), m.mint, order);
  }

  /** Each problem with the manifest's claims is named exactly when it is there. */
  lemma ClaimProblemsMean(m: Manifest, chain: Chain, programId: string)
    ensures
      var problems := ChainProblems(m, chain, programId);
      var token := chain.tokenAt(chain.tokenConfig(m.mint, programId));
      && (OtherProgram in problems <==> m.programId != programId)
      && (NotAToken in problems <==> token.None?)
      && (OtherIssuer in problems <==> token.Some? && token.value.issuerId != m.issuerId)
      && (NotFinalized in problems <==> m.toSlot > chain.finalizedSlot)
      && forall p :: p in problems ==> p in {OtherProgram, NotAToken, OtherIssuer, NotFinalized}
  {
  }

  // ─── What a pass means ─────────────────────────────────────────────────────

  /** The claims of the manifest hold on the chain. */
  predicate ClaimsHold(m: Manifest, chain: Chain, programId: string) {
    var token := chain.tokenAt(chain.tokenConfig(m.mint, programId));
    m.programId == programId && token.Some? && token.value.issuerId == m.issuerId && m.toSlot <= chain.finalizedSlot
  }

  /** Every transaction of the window with an event of the mint is in the index at its slot. */
  ghost predicate IndexComplete(chain: Chain, programId: string, m: Manifest) {
    forall e :: Shows(Reader(chain, programId), e) && Inside(m, e) ==> Mention(e.signature, e.slot) in chain.index(0)
  }

  ghost predicate IndexCompleteFor(lines: seq<Line>, chain: Chain, programId: string) {
    ManifestOf(lines).Some? ==> IndexComplete(chain, programId, ManifestOf(lines).value)
  }

  ghost predicate AllReadable(m: Manifest, chain: Chain, programId: string) {
    forall mention :: mention in MentionsIn(chain, m) ==> ReadingOf(chain, programId, mention.signature).Shown?
  }

  /** These are all the events of the mint in the window that the chain shows, in order. */
  ghost predicate IsChainJournal(events: seq<Event>, m: Manifest, chain: Chain, programId: string) {
    && Ascending(events, Less)
    && forall e :: e in events <==> Shows(Reader(chain, programId), e) && Inside(m, e)
  }

  /** What the file should be. */
  ghost predicate Honest(lines: seq<Line>, chain: Chain, programId: string) {
    ManifestOf(lines).Some?
    && var m, events := ManifestOf(lines).value, EventsOf(EntriesOf(lines));
       && lines == FileOf(m, events) && m.count == |events| && m.toSlot <= m.indexedThroughSlot
       && ClaimsHold(m, chain, programId)
       && AllReadable(m, chain, programId)
       && IsChainJournal(events, m, chain, programId)
  }

  lemma MissingNothing(m: Manifest, chain: Chain, programId: string, entries: seq<Entry>)
    requires IndexComplete(chain, programId, m)
    requires forall e :: e in EventsOf(entries) ==> Shows(Reader(chain, programId), e) && e.mint == m.mint
    ensures
      (exists e :: Shows(Reader(chain, programId), e) && e.mint == m.mint && e.signature in SignatureRead(chain, m, entries)
                   && InSlots(m, e.slot) && !KeyAmong(entries, KeyOf(e)))
      <==> exists e :: Shows(Reader(chain, programId), e) && Inside(m, e) && e !in EventsOf(entries)
  {
    var read := Reader(chain, programId);
    ReaderReadsOwn(chain, programId);
    forall e | Shows(read, e) && Inside(m, e)
      ensures e.signature in SignatureRead(chain, m, entries)
      ensures KeyAmong(entries, KeyOf(e)) <==> e in EventsOf(entries)
    {
      assert Mention(e.signature, e.slot) in MentionsIn(chain, m);
      KeyAmongEvents(entries, KeyOf(e));
      CounterpartIsUnique(read, m.mint, e);
    }
  }

  lemma ChainEventsHaveDistinctKeys(events: seq<Event>, m: Manifest, chain: Chain, programId: string)
    requires IsChainJournal(events, m, chain, programId)
    ensures DistinctKeys(events)
  {
    ReaderReadsOwn(chain, programId);
    LessIsOrder();
    forall i, j | 0 <= i < j < |events| ensures KeyOf(events[i]) != KeyOf(events[j]) {
      CounterpartIsUnique(Reader(chain, programId), m.mint, events[i]);
      assert events[i] in events && events[j] in events && Less(events[i], events[j]);
    }
  }

  lemma NoChainProblems(m: Manifest, chain: Chain, programId: string)
    ensures ChainProblems(m, chain, programId) == [] <==> ClaimsHold(m, chain, programId)
  {
  }

  /** With every event of the file shown by the chain, nothing missing means the file is the chain's journal. */
  lemma CompleteIsChainJournal(m: Manifest, chain: Chain, programId: string, entries: seq<Entry>)
    requires AllFine(m, EventsOf(entries))
    requires forall e :: e in EventsOf(entries) ==> Shows(Reader(chain, programId), e) && e.mint == m.mint
    ensures
      IsChainJournal(EventsOf(entries), m, chain, programId) <==>
      !exists e :: Shows(Reader(chain, programId), e) && Inside(m, e) && e !in EventsOf(entries)
  {
  }

  /** Every line's event is on the chain as it stands. */
  ghost predicate EveryLineShown(lines: seq<Line>, mint: string, chain: Chain, programId: string) {
    forall e :: e in EventsOf(EntriesOf(lines)) ==> Shows(Reader(chain, programId), e) && e.mint == mint
  }

  /** The file holds every event of its window that the chain shows. */
  ghost predicate NothingLeftOut(lines: seq<Line>, m: Manifest, chain: Chain, programId: string) {
    forall e :: Shows(Reader(chain, programId), e) && Inside(m, e) ==> e in EventsOf(EntriesOf(lines))
  }

  /** The report names no problem with the file, its claims or its lines. */
  ghost predicate NothingWrong(lines: seq<Line>, m: Manifest, chain: Chain, programId: string) {
    && IsJournal(lines, m, EventsOf(EntriesOf(lines))) && ClaimsHold(m, chain, programId)
    && AllReadable(m, chain, programId)
    && EveryLineShown(lines, m.mint, chain, programId) && NothingLeftOut(lines, m, chain, programId)
  }

  lemma NothingMissing(report: Report, lines: seq<Line>, m: Manifest, chain: Chain, programId: string)
    requires Describes(report, lines, chain, programId) && IndexComplete(chain, programId, m) && ManifestOf(lines) == Some(m)
    requires EveryLineShown(lines, m.mint, chain, programId)
    ensures report.missing == [] <==> NothingLeftOut(lines, m, chain, programId)
  {
    MissingNothing(m, chain, programId, EntriesOf(lines));
    assert report.missing == [] <==> !exists e :: e in report.missing by {
      if report.missing != [] { assert report.missing[0] in report.missing; }
    }
  }

  lemma ProblemsAre(report: Report, lines: seq<Line>, m: Manifest, chain: Chain, programId: string)
    requires Describes(report, lines, chain, programId) && ManifestOf(lines) == Some(m)
    ensures report.problems == [] <==> IsJournal(lines, m, EventsOf(EntriesOf(lines))) && ClaimsHold(m, chain, programId)
  {
    NoProblems(lines);
    NoChainProblems(m, chain, programId);
  }

  lemma PilesAre(report: Report, lines: seq<Line>, m: Manifest, chain: Chain, programId: string)
    requires Describes(report, lines, chain, programId) && ManifestOf(lines) == Some(m)
    ensures report.unreadable == [] <==> AllReadable(m, chain, programId)
    ensures report.unconfirmed == [] && report.mismatched == [] <==> EveryLineShown(lines, m.mint, chain, programId)
    ensures report.confirmed + |report.unconfirmed| + |report.mismatched| == report.lines
  {
    ReaderReadsOwn(chain, programId);
    PilesAddUp(Reader(chain, programId), m.mint, EntriesOf(lines));
    NothingRefuted(Reader(chain, programId), m.mint, EntriesOf(lines));
    NothingUnread(Reader(chain, programId), MentionsIn(chain, m));
  }

  lemma PassedMeans(report: Report, lines: seq<Line>, m: Manifest, chain: Chain, programId: string)
    requires Describes(report, lines, chain, programId) && ManifestOf(lines) == Some(m)
    ensures report.passed <==>
            report.problems == [] && report.unconfirmed == [] && report.mismatched == []
            && report.missing == [] && report.unreadable == []
  {
  }

  lemma PassedNamesNothing(report: Report, lines: seq<Line>, m: Manifest, chain: Chain, programId: string)
    requires Describes(report, lines, chain, programId) && IndexComplete(chain, programId, m) && ManifestOf(lines) == Some(m)
    ensures report.passed <==> NothingWrong(lines, m, chain, programId)
  {
    PassedMeans(report, lines, m, chain, programId);
    ProblemsAre(report, lines, m, chain, programId);
    PilesAre(report, lines, m, chain, programId);
    if EveryLineShown(lines, m.mint, chain, programId) { NothingMissing(report, lines, m, chain, programId); }
  }

  lemma NothingWrongIsHonest(lines: seq<Line>, m: Manifest, chain: Chain, programId: string)
    requires ManifestOf(lines) == Some(m)
    ensures NothingWrong(lines, m, chain, programId) <==> Honest(lines, chain, programId)
  {
    var entries := EntriesOf(lines);
    if Honest(lines, chain, programId) { ChainEventsHaveDistinctKeys(EventsOf(entries), m, chain, programId); }
    if NothingWrong(lines, m, chain, programId) { CompleteIsChainJournal(m, chain, programId, entries); }
  }

  /**
   * A file passes exactly when it is honest: it is the manifest and then, in strict order, all the
   * events of the mint in the window that the chain shows; the manifest's claims hold; and every
   * transaction of the window could be read. The order in which the lanes finished plays no part.
   */
  lemma PassesExactly(report: Report, lines: seq<Line>, chain: Chain, programId: string)
    requires Describes(report, lines, chain, programId) && IndexCompleteFor(lines, chain, programId)
    ensures report.passed <==> Honest(lines, chain, programId)
  {
    if ManifestOf(lines).Some? {
      PassedNamesNothing(report, lines, ManifestOf(lines).value, chain, programId);
      NothingWrongIsHonest(lines, ManifestOf(lines).value, chain, programId);
    }
  }

  /**
   * The verification, for any number of lanes finishing in any order: the whole report, and what
   * passing means.
   */
  method VerifyJournal(lines: seq<Line>, chain: Chain, programId: string, concurrency: int, finishing: nat -> nat)
    returns (report: Report)
    requires IndexHistory(chain.index)
    ensures Describes(report, lines, chain, programId)
    ensures IndexCompleteFor(lines, chain, programId) ==> (report.passed <==> Honest(lines, chain, programId))
  {
    var file := ReadJournal(lines);
    if file.manifest.None? {
      return Report(None, |file.entries|, 0, [], [], [], [], [], file.problems, false);
    }
    var m := file.manifest.value;
    var claims := CheckClaims(m, chain, programId);
    var mentions: seq<Mention> := [];
    if m.fromSlot <= m.toSlot {
      mentions := Mentions(chain.index, m.fromSlot, m.toSlot, PAGE);
    } else {
      EmptyWindow(chain.index(0), m);
    }
    var c, missing, unreadable, unjournalled, order :=
      Reconcile(m, file.entries, mentions, chain, programId, concurrency, finishing);
    MissingAre(missing, order, chain, programId, m, file.entries);
    var problems := file.problems + claims;
    report := Report(file.manifest, |file.entries|, c.confirmed, c.unconfirmed, c.mismatched, missing, unreadable,
                     unjournalled, problems,
                     problems == [] && c.unconfirmed == [] && c.mismatched == [] && missing == [] && unreadable == []);
    if IndexCompleteFor(lines, chain, programId) { PassesExactly(report, lines, chain, programId); }
  }

  /** A chain has one journal for a mint and a window. */
  lemma ChainJournalUnique(a: seq<Event>, b: seq<Event>, m: Manifest, n: Manifest, chain: Chain, programId: string)
    requires m.mint == n.mint && m.fromSlot == n.fromSlot && m.toSlot == n.toSlot
    requires IsChainJournal(a, m, chain, programId) && IsChainJournal(b, n, chain, programId)
    ensures a == b
  {
    LessIsOrder();
    AscendingUnique(a, b, Less);
  }

  /** Two files that pass for one mint and window hold the same events. */
  lemma PassingFilesAgree(p: Report, q: Report, a: seq<Line>, b: seq<Line>, chain: Chain, programId: string)
    requires Describes(p, a, chain, programId) && Describes(q, b, chain, programId)
    requires IndexCompleteFor(a, chain, programId) && IndexCompleteFor(b, chain, programId)
    requires p.passed && q.passed
    requires
      var m, n := ManifestOf(a), ManifestOf(b);
      m.Some? && n.Some? ==> m.value.mint == n.value.mint && m.value.fromSlot == n.value.fromSlot && m.value.toSlot == n.value.toSlot
    ensures a[1..] == b[1..]
  {
    PassesExactly(p, a, chain, programId);
    PassesExactly(q, b, chain, programId);
    ChainJournalUnique(EventsOf(EntriesOf(a)), EventsOf(EntriesOf(b)), ManifestOf(a).value, ManifestOf(b).value, chain, programId);
  }

  lemma LinesOf(m: Manifest, events: seq<Event>, lines: seq<Line>)
    ensures [ManifestLine(m)] + lines == FileOf(m, events) <==> lines == EventLines(events)
  {
    if [ManifestLine(m)] + lines == FileOf(m, events) {
      assert ([ManifestLine(m)] + lines)[1..] == lines && FileOf(m, events)[1..] == EventLines(events);
    }
  }

  lemma HonestLines(m: Manifest, events: seq<Event>, chain: Chain, programId: string)
    ensures Honest(FileOf(m, events), chain, programId) <==>
            && m.count == |events| && m.toSlot <= m.indexedThroughSlot
            && ClaimsHold(m, chain, programId) && AllReadable(m, chain, programId)
            && IsChainJournal(events, m, chain, programId)
  {
    EntriesOfFile(m, events);
  }

  lemma CountAside(m: Manifest, count: nat, events: seq<Event>, chain: Chain, programId: string)
    ensures var n := m.(count := count);
            && ClaimsHold(n, chain, programId) == ClaimsHold(m, chain, programId)
            && AllReadable(n, chain, programId) == AllReadable(m, chain, programId)
            && IsChainJournal(events, n, chain, programId) == IsChainJournal(events, m, chain, programId)
  {
  }

  /**
   * Under the manifest of a file that is honest, whatever count they declare, no other lines are:
   * dropped, edited, invented, repeated or reordered.
   */
  lemma OnlyTheseLines(m: Manifest, events: seq<Event>, lines: seq<Line>, count: nat, chain: Chain, programId: string)
    requires Honest(FileOf(m, events), chain, programId)
    ensures Honest([ManifestLine(m.(count := count))] + lines, chain, programId) <==>
            lines == EventLines(events) && count == |events|
  {
    var n := m.(count := count);
    var file := [ManifestLine(n)] + lines;
    var own := EventsOf(EntriesOf(file));
    HonestLines(m, events, chain, programId);
    HonestLines(n, own, chain, programId);
    CountAside(m, count, events, chain, programId);
    LinesOf(n, own, lines);
    LinesOf(n, events, lines);
    if Honest(file, chain, programId) { ChainJournalUnique(own, events, n, m, chain, programId); }
    if lines == EventLines(events) { HonestLines(n, events, chain, programId); }
  }

  /** Any tampering with the lines of a file that passes makes it fail, the count adjusted or not. */
  lemma TamperedFails(p: Report, q: Report, m: Manifest, events: seq<Event>, lines: seq<Line>, count: nat,
                      chain: Chain, programId: string)
    requires Describes(p, FileOf(m, events), chain, programId) && IndexComplete(chain, programId, m) && p.passed
    requires Describes(q, [ManifestLine(m.(count := count))] + lines, chain, programId)
    ensures q.passed <==> lines == EventLines(events) && count == |events|
  {
    assert forall e :: Inside(m.(count := count), e) <==> Inside(m, e);
    PassesExactly(p, FileOf(m, events), chain, programId);
    PassesExactly(q, [ManifestLine(m.(count := count))] + lines, chain, programId);
    OnlyTheseLines(m, events, lines, count, chain, programId);
  }

  /** What part of the file's lines is unconfirmed or mismatched; nothing of an empty file is. */
  function UnconfirmedShare(report: Report): (r: real) {
    if report.lines == 0 then 0.0
    else (|report.unconfirmed| + |report.mismatched|) as real / report.lines as real
  }

  lemma ShareOfPiles(report: Report)
    requires report.confirmed + |report.unconfirmed| + |report.mismatched| == report.lines
    ensures 0.0 <= UnconfirmedShare(report) <= 1.0
    ensures UnconfirmedShare(report) == 0.0 <==> report.confirmed == report.lines
  {
    if report.lines > 0 { ShareOf(|report.unconfirmed| + |report.mismatched|, report.lines); }
  }

  /** The share is the part of the lines not confirmed: between nothing and all of them, and zero exactly when all are confirmed. */
  lemma ShareMeasuresLines(report: Report, lines: seq<Line>, chain: Chain, programId: string)
    requires Describes(report, lines, chain, programId) && report.manifest.Some?
    ensures report.confirmed + |report.unconfirmed| + |report.mismatched| == report.lines
    ensures 0.0 <= UnconfirmedShare(report) <= 1.0
    ensures UnconfirmedShare(report) == 0.0 <==> report.confirmed == report.lines
  {
    PilesAre(report, lines, report.manifest.value, chain, programId);
    ShareOfPiles(report);
  }

  lemma ShareOf(part: nat, whole: nat)
    requires part <= whole && whole > 0
    ensures 0.0 <= part as real / whole as real <= 1.0
    ensures part as real / whole as real == 0.0 <==> part == 0
  {
  }
}