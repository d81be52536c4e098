/** How the mirror follows the chain, one transaction at a time (apps/worker/src/indexer/cursor.ts, follow.ts, apply.ts). */
module Indexer {
  import opened Common
  import opened Ordering
  import opened Events
  import opened JournalStore

  datatype Seen = Seen(signature: string, slot: nat)

  /** A finalized transaction of the program with its events. */
  datatype Tx = Tx(seen: Seen, events: seq<Event>)

  const RECENT_SIGNATURES := 256

  /**
   * The chain, oldest first; the rows; the cursor as stored and as held in memory; the signatures
   * remembered; what the running pass has still to handle; and whether it halted. `written` counts
   * the transactions whose rows were inserted: nothing reads it.
   */
  datatype State = State(
    chain: seq<Tx>, table: set<Event>, written: nat, stored: Option<Seen>, cursor: Option<Seen>, recent: seq<string>,
    pending: seq<Seen>, halted: bool, saving: bool)

  /**
   * The chain finalizes a transaction; a pass lists what is newer than its cursor; the next of the
   * list is handled, its rows inserted or not, with or without a failure; the cursor is saved or
   * the save fails; the process restarts.
   */
  datatype Step = Finalize(tx: Tx) | StartPass | Handle(inserts: bool, fails: bool) | Save(fails: bool) | Restart

  function PositionOf(chain: seq<Tx>, signature: string): (r: nat)
    ensures r <= |chain|
    ensures r < |chain| ==> chain[r].seen.signature == signature
    ensures forall i :: 0 <= i < r ==> chain[i].seen.signature != signature
  {
    if chain == [] then 0
    else if chain[0].seen.signature == signature then 0
    else 1 + PositionOf(chain[1..], signature)
  }

  function SeenOf(txs: seq<Tx>): (r: seq<Seen>)
    ensures |r| == |txs|
  {
    seq(|txs|, i requires 0 <= i < |txs| => txs[i].seen)
  }

  /** Every signature newer than the cursor's, oldest first. */
  function ListSince(chain: seq<Tx>, cursor: Option<Seen>): seq<Seen> {
    var all := SeenOf(chain);
    if cursor.None? then all
    else
      var at := PositionOf(chain, cursor.value.signature);
      if at < |chain| then all[at + 1..] else all
  }

  predicate IsBehind(s: State, seen: Seen) {
    s.cursor.Some? && (seen.slot < s.cursor.value.slot || (seen.slot == s.cursor.value.slot && seen.signature in s.recent))
  }

  /** Rows are inserted unless one of their key is there already. */
  function InsertEvents(table: set<Event>, events: seq<Event>): set<Event> {
    table + set e | e in events && forall row :: row in table ==> KeyOf(row) != KeyOf(e)
  }

  function Remember(recent: seq<string>, signature: string): seq<string> {
    var r := recent + [signature];
    if |r| > RECENT_SIGNATURES then r[1..] else r
  }

  function HandleNext(s: State, inserts: bool, fails: bool): State
    requires s.pending != []
  {
    var seen, rest := s.pending[0], s.pending[1..];
    var at := PositionOf(s.chain, seen.signature);
    if s.halted || IsBehind(s, seen) || at >= |s.chain| then s.(pending := rest)
    else
      var table := if inserts || !fails then InsertEvents(s.table, s.chain[at].events) else s.table;
      var written := if inserts || !fails then (if at + 1 > s.written then at + 1 else s.written) else s.written;
      if fails then s.(table := table, written := written, halted := true, pending := [])
      else
        s.(table := table, written := written, cursor := Some(seen), recent := Remember(s.recent, seen.signature),
           pending := rest, saving := true)
  }

  /** What may happen next; the chain appends a new transaction in a slot no earlier than its last. */
  predicate Enabled(s: State, step: Step) {
    match step
    case Finalize(tx) =>
      && (forall i :: 0 <= i < |s.chain| ==>
            s.chain[i].seen.slot <= tx.seen.slot && s.chain[i].seen.signature != tx.seen.signature)
      && (forall i :: 0 <= i < |tx.events| ==>
            tx.events[i].signature == tx.seen.signature && tx.events[i].slot == tx.seen.slot
            && tx.events[i].eventIndex == i)
    case StartPass => s.pending == [] && !s.saving
    case Handle(_, _) => s.pending != [] && !s.saving
    case Save(_) => s.saving && s.cursor.Some?
    case Restart => true
  }

  function Next(s: State, step: Step): State
    requires Enabled(s, step)
  {
    match step
    case Finalize(tx) => s.(chain := s.chain + [tx])
    case StartPass => s.(halted := false, pending := ListSince(s.chain, s.cursor))
    case Handle(inserts, fails) => HandleNext(s, inserts, fails)
    case Save(fails) => if fails then s.(saving := false, pending := []) else s.(saving := false, stored := s.cursor)
    case Restart =>
      s.(cursor := s.stored, recent := if s.stored.Some? then [s.stored.value.signature] else [], pending := [],
         halted := false, saving := false)
  }

  ghost predicate Steps(s: State, steps: seq<Step>, t: State)
    decreases |steps|
  {
    if steps == [] then t == s else Enabled(s, steps[0]) && Steps(Next(s, steps[0]), steps[1..], t)
  }

  // ─── What every run keeps ──────────────────────────────────────────────────

  /** The events of the first `n` transactions. */
  function EventsUpTo(chain: seq<Tx>, n: nat): set<Event>
    requires n <= |chain|
  {
    set i, j | 0 <= i < n && 0 <= j < |chain[i].events| :: chain[i].events[j]
  }

  predicate IsAt(chain: seq<Tx>, cursor: Option<Seen>, n: nat) {
    n <= |chain| && cursor == if n == 0 then None else Some(chain[n - 1].seen)
  }

  ghost predicate ChainOk(chain: seq<Tx>) {
    && (forall i, j :: 0 <= i < j < |chain| ==>
          chain[i].seen.slot <= chain[j].seen.slot && chain[i].seen.signature != chain[j].seen.signature)
    && (forall i, j :: 0 <= i < |chain| && 0 <= j < |chain[i].events| ==>
          chain[i].events[j].signature == chain[i].seen.signature && chain[i].events[j].slot == chain[i].seen.slot
          && chain[i].events[j].eventIndex == j)
  }

  /**
   * The rows are the events of the first `written` transactions; the stored cursor is at most as
   * far as the one in memory, which is at most that far; and the pass goes on with the transaction
   * after its cursor.
   */
  ghost predicate Kept(s: State, saved: nat, reached: nat, listed: nat) {
    && ChainOk(s.chain)
    && saved <= reached <= s.written <= |s.chain| && reached <= listed <= |s.chain|
    && IsAt(s.chain, s.stored, saved) && IsAt(s.chain, s.cursor, reached)
    && s.table == EventsUpTo(s.chain, s.written)
    && (forall signature :: signature in s.recent ==>
          exists i :: 0 <= i < reached && s.chain[i].seen.signature == signature)
    && (s.pending == [] || (s.pending == SeenOf(s.chain)[reached..listed] && !s.halted))
  }

  lemma PositionIs(chain: seq<Tx>, i: nat)
    requires ChainOk(chain) && i < |chain|
    ensures PositionOf(chain, chain[i].seen.signature) == i
  {
  }

  lemma KeptByFinalize(s: State, tx: Tx, saved: nat, reached: nat, listed: nat)
    requires Kept(s, saved, reached, listed) && Enabled(s, Finalize(tx))
    ensures Kept(Next(s, Finalize(tx)), saved, reached, listed)
  {
    var chain := s.chain + [tx];
    assert forall i :: 0 <= i < |s.chain| ==> chain[i] == s.chain[i];
    assert EventsUpTo(chain, s.written) == EventsUpTo(s.chain, s.written);
    assert SeenOf(chain)[reached..listed] == SeenOf(s.chain)[reached..listed];
  }

  lemma KeptByStart(s: State, saved: nat, reached: nat, listed: nat)
    requires Kept(s, saved, reached, listed) && Enabled(s, StartPass)
    ensures Kept(Next(s, StartPass), saved, reached, |s.chain|)
    ensures Next(s, StartPass).pending == SeenOf(s.chain)[reached..]
  {
    if reached > 0 { PositionIs(s.chain, reached - 1); }
    assert ListSince(s.chain, s.cursor) == SeenOf(s.chain)[reached..];
    assert SeenOf(s.chain)[reached..] == SeenOf(s.chain)[reached..|s.chain|];
  }

  lemma InsertKnown(chain: seq<Tx>, n: nat, i: nat)
    requires i < n <= |chain|
    ensures InsertEvents(EventsUpTo(chain, n), chain[i].events) == EventsUpTo(chain, n)
  {
    forall e | e in chain[i].events ensures e in EventsUpTo(chain, n) {
      var j :| 0 <= j < |chain[i].events| && chain[i].events[j] == e;
    }
  }

  lemma InsertNew(chain: seq<Tx>, n: nat, next: nat)
    requires ChainOk(chain) && n < |chain| && next == n + 1
    ensures InsertEvents(EventsUpTo(chain, n), chain[n].events) == EventsUpTo(chain, next)
  {
    var table := EventsUpTo(chain, n);
    forall row, e | row in table && e in chain[n].events ensures KeyOf(row) != KeyOf(e) {
      var i, j :| 0 <= i < n && 0 <= j < |chain[i].events| && row == chain[i].events[j];
      var k :| 0 <= k < |chain[n].events| && e == chain[n].events[k];
      KeyIdentifies(row, e);
    }
    assert EventsUpTo(chain, next) == table + set e | e in chain[n].events;
  }

  lemma NotBehind(s: State, saved: nat, reached: nat, listed: nat)
    requires Kept(s, saved, reached, listed) && reached < |s.chain|
    ensures !IsBehind(s, s.chain[reached].seen)
  {
  }

  /** What handling the transaction at the cursor does to the rows. */
  lemma RowsAfterHandle(chain: seq<Tx>, written: nat, at: nat)
    requires ChainOk(chain) && at <= written <= |chain| && at < |chain|
    ensures InsertEvents(EventsUpTo(chain, written), chain[at].events)
            == EventsUpTo(chain, if at + 1 > written then at + 1 else written)
  {
    if at < written { InsertKnown(chain, written, at); } else { InsertNew(chain, written, at + 1); }
  }

  lemma HandlesNext(s: State, saved: nat, reached: nat, listed: nat)
    requires Kept(s, saved, reached, listed) && s.pending != []
    ensures reached < listed && s.pending[0] == s.chain[reached].seen
    ensures PositionOf(s.chain, s.pending[0].signature) == reached && !IsBehind(s, s.pending[0])
  {
    PositionIs(s.chain, reached);
    NotBehind(s, saved, reached, listed);
  }

  lemma Remembered(s: State, saved: nat, reached: nat, listed: nat, next: nat)
    requires Kept(s, saved, reached, listed) && reached < |s.chain| && next == reached + 1
    ensures forall signature :: signature in Remember(s.recent, s.chain[reached].seen.signature) ==>
              exists i :: 0 <= i < next && s.chain[i].seen.signature == signature
  {
    var added := s.chain[reached].seen.signature;
    forall signature | signature in Remember(s.recent, added)
      ensures exists i :: 0 <= i < next && s.chain[i].seen.signature == signature
    {
      if signature in s.recent {
        var i :| 0 <= i < reached && s.chain[i].seen.signature == signature;
      } else {
        assert s.chain[reached].seen.signature == signature;
      }
    }
  }

  lemma KeptByHandle(s: State, inserts: bool, saved: nat, reached: nat, listed: nat, next: nat)
    requires Kept(s, saved, reached, listed) && Enabled(s, Handle(inserts, false)) && next == reached + 1
    ensures Next(s, Handle(inserts, false)).written >= s.written
    ensures Kept(Next(s, Handle(inserts, false)), saved, next, listed)
  {
    HandlesNext(s, saved, reached, listed);
    RowsAfterHandle(s.chain, s.written, reached);
    Remembered(s, saved, reached, listed, next);
    assert s.pending[1..] == SeenOf(s.chain)[next..listed];
  }

  lemma KeptByFailure(s: State, inserts: bool, saved: nat, reached: nat, listed: nat)
    requires Kept(s, saved, reached, listed) && Enabled(s, Handle(inserts, true))
    ensures Next(s, Handle(inserts, true)).written >= s.written
    ensures Kept(Next(s, Handle(inserts, true)), saved, reached, listed)
  {
    HandlesNext(s, saved, reached, listed);
    RowsAfterHandle(s.chain, s.written, reached);
  }

  lemma KeptBySave(s: State, fails: bool, saved: nat, reached: nat, listed: nat)
    requires Kept(s, saved, reached, listed) && Enabled(s, Save(fails))
    ensures Kept(Next(s, Save(fails)), if fails then saved else reached, reached, listed)
  {
  }

  lemma KeptByRestart(s: State, saved: nat, reached: nat, listed: nat)
    requires Kept(s, saved, reached, listed)
    ensures Kept(Next(s, Restart), saved, saved, |s.chain|)
  {
    if saved > 0 { assert s.chain[saved - 1].seen.signature == s.stored.value.signature; }
  }

  /** How far a run has come. */
  datatype Progress = Progress(saved: nat, reached: nat, listed: nat)

  ghost predicate KeptAt(s: State, p: Progress) { Kept(s, p.saved, p.reached, p.listed) }

  function After(s: State, step: Step, p: Progress): Progress {
    match step
    case Finalize(_) => p
    case StartPass => p.(listed := |s.chain|)
    case Handle(_, fails) => if fails then p else p.(reached := p.reached + 1)
    case Save(fails) => if fails then p else p.(saved := p.reached)
    case Restart => Progress(p.saved, p.saved, |s.chain|)
  }

  lemma KeptByStep(s: State, step: Step, p: Progress)
    requires KeptAt(s, p) && Enabled(s, step)
    ensures KeptAt(Next(s, step), After(s, step, p)) && After(s, step, p).saved >= p.saved
    ensures Next(s, step).written >= s.written && s.chain <= Next(s, step).chain
  {
    match step
    case Finalize(tx) => KeptByFinalize(s, tx, p.saved, p.reached, p.listed);
    case StartPass => KeptByStart(s, p.saved, p.reached, p.listed);
    case Handle(inserts, fails) =>
      if fails {
        KeptByFailure(s, inserts, p.saved, p.reached, p.listed);
      } else {
        KeptByHandle(s, inserts, p.saved, p.reached, p.listed, After(s, step, p).reached);
      }
    case Save(fails) => KeptBySave(s, fails, p.saved, p.reached, p.listed);
    case Restart => KeptByRestart(s, p.saved, p.reached, p.listed);
  }

  /** In every run, restarts and failures at any point included, the invariant stands and nothing goes backward. */
  lemma {:induction false} RunKeeps(s: State, steps: seq<Step>, t: State, p: Progress) returns (q: Progress)
    requires KeptAt(s, p) && Steps(s, steps, t)
    ensures KeptAt(t, q) && q.saved >= p.saved && t.written >= s.written && s.chain <= t.chain
    decreases |steps|
  {
    if steps == [] {
      q := p;
    } else {
      KeptByStep(s, steps[0], p);
      q := RunKeeps(Next(s, steps[0]), steps[1..], t, After(s, steps[0], p));
    }
  }

  // ─── What the readers of the table may rely on ─────────────────────────────

  /** The database as a reader finds it: the rows in the order of the index, and the stored cursor. */
  ghost predicate IsImage(db: Database, s: State) {
    && Ordered(db) && (forall e :: e in db.table <==> e in s.table)
    && db.cursor == if s.stored.None? then None else Some(s.stored.value.slot)
  }

  lemma SlotOfEvent(chain: seq<Tx>, n: nat, e: Event) returns (i: nat)
    requires ChainOk(chain) && n <= |chain| && e in EventsUpTo(chain, n)
    ensures i < n && e in chain[i].events && e.slot == chain[i].seen.slot
  {
    var a, b :| 0 <= a < n && 0 <= b < |chain[a].events| && e == chain[a].events[b];
    i := a;
  }

  lemma PrefixEvents(chain: seq<Tx>, later: seq<Tx>, n: nat)
    requires chain <= later && n <= |chain|
    ensures EventsUpTo(later, n) == EventsUpTo(chain, n)
  {
    assert forall i :: 0 <= i < n ==> later[i] == chain[i];
  }

  lemma InEventsUpTo(chain: seq<Tx>, n: nat, i: nat, e: Event)
    requires n <= |chain| && i < |chain| && e in chain[i].events
    ensures i < n ==> e in EventsUpTo(chain, n)
  {
    var j :| 0 <= j < |chain[i].events| && chain[i].events[j] == e;
  }

  /** Up to a slot the indexer is past the rows are exactly the events of the chain: none lost, none invented. */
  lemma HorizonMirrorsChain(s: State, p: Progress, db: Database, slot: nat, e: Event)
    requires KeptAt(s, p) && IsImage(db, s) && Behind(db, slot) && e.slot <= slot
    ensures e in db.table <==> e in EventsUpTo(s.chain, |s.chain|)
  {
    if e in db.table {
      var i := SlotOfEvent(s.chain, s.written, e);
      InEventsUpTo(s.chain, |s.chain|, i, e);
    }
    if e in EventsUpTo(s.chain, |s.chain|) {
      var i := SlotOfEvent(s.chain, |s.chain|, e);
      BehindIsWritten(s, p, db, slot, i);
      InEventsUpTo(s.chain, s.written, i, e);
    }
  }

  /** A transaction in a slot the indexer is past has its rows written. */
  lemma BehindIsWritten(s: State, p: Progress, db: Database, slot: nat, i: nat)
    requires KeptAt(s, p) && IsImage(db, s) && Behind(db, slot)
    requires i < |s.chain| && s.chain[i].seen.slot <= slot
    ensures i < s.written
  {
    if db.cursor.Some? && db.cursor.value > slot {
      assert s.chain[p.saved - 1].seen.slot == db.cursor.value;
    } else {
      var f :| f in db.table && f.slot > slot;
      var j := SlotOfEvent(s.chain, s.written, f);
    }
  }

  lemma EventsKept(s: State, t: State, e: Event)
    requires s.chain <= t.chain && s.written <= t.written && s.written <= |s.chain| && t.written <= |t.chain|
    requires e in EventsUpTo(s.chain, s.written)
    ensures e in EventsUpTo(t.chain, t.written)
  {
    var i, j :| 0 <= i < s.written && 0 <= j < |s.chain[i].events| && e == s.chain[i].events[j];
    assert t.chain[i] == s.chain[i];
  }

  lemma NewRowIsLate(s: State, t: State, p: Progress, q: Progress, e: Event, row: Event)
    requires KeptAt(s, p) && KeptAt(t, q) && s.chain <= t.chain && s.written <= t.written
    requires e in t.table && e !in s.table
    ensures s.stored.Some? ==> s.stored.value.slot <= e.slot
    ensures row in s.table ==> row.slot <= e.slot
  {
    var i := SlotOfEvent(t.chain, t.written, e);
    PrefixEvents(s.chain, t.chain, s.written);
    InEventsUpTo(t.chain, s.written, i, e);
    if s.stored.Some? { assert t.chain[p.saved - 1] == s.chain[p.saved - 1]; }
    if row in s.table { var j := SlotOfEvent(t.chain, s.written, row); }
  }

  /**
   * Between any two reads of a run rows are only added, none below the stored cursor and none below
   * a row already there, and the cursor only advances.
   */
  lemma RunGrows(s: State, steps: seq<Step>, t: State, p: Progress, a: Database, b: Database)
    requires KeptAt(s, p) && Steps(s, steps, t) && IsImage(a, s) && IsImage(b, t)
    ensures Grows(a, b)
  {
    var q := RunKeeps(s, steps, t, p);
    forall e | e in a.table ensures e in b.table { EventsKept(s, t, e); }
    forall e | e in b.table && e !in a.table ensures IsLate(a, e) {
      NewRowIsLate(s, t, p, q, e, e);
      forall row | row in a.table ensures row.slot <= e.slot { NewRowIsLate(s, t, p, q, e, row); }
    }
    CursorAdvances(s, t, p, q);
  }

  lemma CursorAdvances(s: State, t: State, p: Progress, q: Progress)
    requires KeptAt(s, p) && KeptAt(t, q) && s.chain <= t.chain && p.saved <= q.saved
    ensures s.stored.Some? ==> t.stored.Some? && s.stored.value.slot <= t.stored.value.slot
  {
    if s.stored.Some? {
      assert t.chain[p.saved - 1] == s.chain[p.saved - 1];
      if q.saved > p.saved { assert t.chain[p.saved - 1].seen.slot <= t.chain[q.saved - 1].seen.slot; }
    }
  }

  const START := State([], {}, 0, None, None, [], [], false, false)

  lemma StartIsKept()
    ensures KeptAt(START, Progress(0, 0, 0))
  {
  }

  // ─── Histories of runs ─────────────────────────────────────────────────────

  ghost predicate LeadsTo(s: State, t: State) { exists steps :: Steps(s, steps, t) }

  ghost predicate Follows(states: nat -> State, k: nat) { LeadsTo(states(k), states(k + 1)) }

  /** The table at each read, as a run of the indexer left it. */
  ghost predicate Served(states: nat -> State, at: nat -> Database) {
    && (forall k: nat :: IsImage(at(k), states(k)))
    && (forall k: nat :: Follows(states, k))
  }

  lemma {:induction false} ServedKeeps(states: nat -> State, at: nat -> Database, p: Progress, k: nat) returns (q: Progress)
    requires Served(states, at) && KeptAt(states(0), p)
    ensures KeptAt(states(k), q)
  {
    if k == 0 {
      q := p;
    } else {
      var r := ServedKeeps(states, at, p, k - 1);
      assert Follows(states, k - 1) && LeadsTo(states(k - 1), states(k));
      var steps :| Steps(states(k - 1), steps, states(k));
      q := RunKeeps(states(k - 1), steps, states(k), r);
    }
  }

  /** What the readers of the table assume of it, every run of the indexer gives them. */
  lemma RunsAreHistories(states: nat -> State, at: nat -> Database, p: Progress)
    requires Served(states, at) && KeptAt(states(0), p)
    ensures History(at)
  {
    forall k: nat ensures GrowsAfter(at, k) {
      var q := ServedKeeps(states, at, p, k);
      assert Follows(states, k) && LeadsTo(states(k), states(k + 1));
      var steps :| Steps(states(k), steps, states(k + 1));
      RunGrows(states(k), steps, states(k + 1), q, at(k), at(k + 1));
    }
  }

  // ─── When the horizon is final ─────────────────────────────────────────────

  ghost predicate Reachable(s: State) { LeadsTo(START, s) }

  lemma ReachableKept(s: State) returns (p: Progress)
    requires Reachable(s)
    ensures KeptAt(s, p)
  {
    StartIsKept();
    var steps :| Steps(START, steps, s);
    p := RunKeeps(START, steps, s, Progress(0, 0, 0));
  }

  lemma {:induction false} StepsThen(s: State, steps: seq<Step>, t: State, step: Step)
    requires Steps(s, steps, t) && Enabled(t, step)
    ensures Steps(s, steps + [step], Next(t, step))
    decreases |steps|
  {
    var all := steps + [step];
    if steps == [] {
      assert all[1..] == [];
    } else {
      StepsThen(Next(s, steps[0]), steps[1..], t, step);
      assert all[0] == steps[0] && all[1..] == steps[1..] + [step];
    }
  }

  lemma LeadsOn(s: State, t: State, step: Step)
    requires LeadsTo(s, t) && Enabled(t, step)
    ensures LeadsTo(s, Next(t, step))
  {
    var steps :| Steps(s, steps, t);
    StepsThen(s, steps, t, step);
  }

  lemma LeadsToItself(s: State)
    ensures LeadsTo(s, s)
  {
    assert Steps(s, [], s);
  }

  /** The next transaction of this chain is finalized, if it was not. */
  lemma FinalizeNext(from: State, s: State, p: Progress, chain: seq<Tx>) returns (t: State)
    requires LeadsTo(from, s) && KeptAt(s, p) && !s.saving
    requires ChainOk(chain) && s.chain <= chain && p.reached < |chain|
    ensures LeadsTo(from, t) && KeptAt(t, p) && !t.saving && t.chain <= chain && p.reached < |t.chain|
  {
    t := s;
    if p.reached == |s.chain| {
      var tx := chain[p.reached];
      KeptByFinalize(s, tx, p.saved, p.reached, p.listed);
      LeadsOn(from, s, Finalize(tx));
      t := Next(s, Finalize(tx));
      assert t.chain == chain[..p.reached + 1];
    }
  }

  /** Something is to be handled: the next transaction of this chain, finalized if it was not, and listed. */
  lemma Await(from: State, s: State, p: Progress, chain: seq<Tx>) returns (t: State, q: Progress)
    requires LeadsTo(from, s) && KeptAt(s, p) && !s.saving
    requires ChainOk(chain) && s.chain <= chain && p.reached < |chain|
    ensures LeadsTo(from, t) && KeptAt(t, q) && !t.saving && t.pending != [] && t.chain <= chain
    ensures q.saved == p.saved && q.reached == p.reached
  {
    t := FinalizeNext(from, s, p, chain);
    q := p;
    if t.pending == [] {
      KeptByStart(t, p.saved, p.reached, p.listed);
      LeadsOn(from, t, StartPass);
      q := p.(listed := |t.chain|);
      t := Next(t, StartPass);
      assert |t.pending| == |t.chain| - p.reached;
    }
  }

  /** The next transaction is handled, and its cursor saved or not. */
  lemma HandleOne(from: State, s: State, p: Progress, saves: bool) returns (t: State, q: Progress)
    requires LeadsTo(from, s) && KeptAt(s, p) && !s.saving && s.pending != []
    ensures LeadsTo(from, t) && KeptAt(t, q) && !t.saving && t.chain == s.chain
    ensures q.reached == p.reached + 1 && q.saved == if saves then q.reached else p.saved
  {
    var next := p.reached + 1;
    HandlesNext(s, p.saved, p.reached, p.listed);
    KeptByHandle(s, true, p.saved, p.reached, p.listed, next);
    var handled := Next(s, Handle(true, false));
    LeadsOn(from, s, Handle(true, false));
    KeptBySave(handled, !saves, p.saved, next, p.listed);
    t, q := Next(handled, Save(!saves)), Progress(if saves then next else p.saved, next, p.listed);
    LeadsOn(from, handled, Save(!saves));
  }

  /** The whole of this chain is handled and written, and the cursor was last saved after `saved` transactions. */
  ghost predicate Done(s: State, chain: seq<Tx>, saved: nat) {
    s.chain == chain && Kept(s, saved, |chain|, |chain|) && !s.saving
  }

  /** From any point of it every chain can be handled to its end, with the cursor saved last at any later point or not at all. */
  lemma {:induction false} DriveTo(from: State, s: State, p: Progress, chain: seq<Tx>, goal: nat) returns (t: State)
    requires LeadsTo(from, s) && KeptAt(s, p) && !s.saving && ChainOk(chain) && s.chain <= chain
    requires p.saved <= goal <= |chain| && (goal == p.saved || goal > p.reached)
    ensures LeadsTo(from, t) && Done(t, chain, goal)
    decreases |chain| - p.reached
  {
    if p.reached == |chain| {
      t := s;
      assert s.chain == chain;
    } else {
      var listed, q := Await(from, s, p, chain);
      var handled, r := HandleOne(from, listed, q, goal == p.reached + 1);
      t := DriveTo(from, handled, r, chain, goal);
    }
  }

  lemma {:induction false} WrittenUpTo(chain: seq<Tx>, written: nat, slot: nat) returns (n: nat)
    requires ChainOk(chain) && written <= |chain|
    ensures n <= written
    ensures forall i :: 0 <= i < written ==> (chain[i].seen.slot <= slot <==> i < n)
    decreases written
  {
    if written == 0 || chain[written - 1].seen.slot <= slot {
      n := written;
    } else {
      n := WrittenUpTo(chain, written - 1, slot);
    }
  }

  /** Without a row past a slot, the transactions up to the slot wrote the whole table. */
  lemma NothingBeyond(chain: seq<Tx>, written: nat, slot: nat, n: nat)
    requires ChainOk(chain) && n <= written <= |chain|
    requires forall i :: 0 <= i < written ==> (chain[i].seen.slot <= slot <==> i < n)
    requires forall e :: e in EventsUpTo(chain, written) ==> e.slot <= slot
    ensures EventsUpTo(chain[..n], n) == EventsUpTo(chain, written)
  {
    forall e | e in EventsUpTo(chain, written) ensures e in EventsUpTo(chain[..n], n) {
      var i := SlotOfEvent(chain, written, e);
      InEventsUpTo(chain[..n], n, i, e);
    }
  }

  /** How much of the chain a run needs to leave this table, when no row lies past a slot. */
  lemma Needed(s: State, p: Progress, db: Database, slot: nat, chain: seq<Tx>, upTo: nat) returns (n: nat)
    requires KeptAt(s, p) && IsImage(db, s) && ChainOk(chain) && s.chain <= chain && s.written <= upTo <= |chain|
    requires forall e :: e in s.table ==> e.slot <= slot
    requires s.stored.Some? ==> s.stored.value.slot <= slot
    ensures n <= s.written && p.saved <= n && EventsUpTo(chain[..n], n) == s.table
    ensures forall i :: 0 <= i < s.written ==> (chain[i].seen.slot <= slot <==> i < n)
  {
    n := WrittenUpTo(chain, s.written, slot);
    PrefixEvents(s.chain, chain, s.written);
    NothingBeyond(chain, s.written, slot, n);
    if p.saved > 0 { assert chain[p.saved - 1] == s.chain[p.saved - 1]; }
  }

  lemma DoneIsImage(s: State, chain: seq<Tx>, n: nat, saved: nat, db: Database, was: State)
    requires n <= |chain| && saved <= n && Done(s, chain[..n], saved) && ChainOk(chain)
    requires IsImage(db, was) && EventsUpTo(chain[..n], n) == was.table && IsAt(chain, was.stored, saved)
    ensures IsImage(db, s)
  {
    if saved > 0 { assert chain[..n][saved - 1] == chain[saved - 1]; }
  }

  lemma StoredAt(s: State, p: Progress, chain: seq<Tx>)
    requires KeptAt(s, p) && s.chain <= chain
    ensures IsAt(chain, s.stored, p.saved)
  {
    if p.saved > 0 { assert chain[p.saved - 1] == s.chain[p.saved - 1]; }
  }

  lemma ChainPrefixOk(chain: seq<Tx>, n: nat)
    requires ChainOk(chain) && n <= |chain|
    ensures ChainOk(chain[..n])
  {
  }

  /** Two reads of one run are also two reads of a run with nothing finalized past a slot that neither read shows it to be past. */
  lemma ServedWithoutMore(first: Database, second: Database, slot: nat, s1: State, s2: State)
    returns (b1: State, b2: State, chain: seq<Tx>, saved: nat)
    requires Reachable(s1) && IsImage(first, s1) && LeadsTo(s1, s2) && IsImage(second, s2) && !Behind(second, slot)
    ensures Reachable(b1) && IsImage(first, b1) && LeadsTo(b1, b2) && IsImage(second, b2)
    ensures Done(b2, chain, saved) && forall i :: 0 <= i < |chain| ==> chain[i].seen.slot <= slot
  {
    var p1 := ReachableKept(s1);
    var steps :| Steps(s1, steps, s2);
    var p2 := RunKeeps(s1, steps, s2, p1);
    RunGrows(s1, steps, s2, p1, first, second);
    var n1 := Needed(s1, p1, first, slot, s2.chain, s2.written);
    var n2 := Needed(s2, p2, second, slot, s2.chain, s2.written);
    StoredAt(s1, p1, s2.chain);
    ChainPrefixOk(s2.chain, n1);
    ChainPrefixOk(s2.chain, n2);
    LeadsToItself(START);
    StartIsKept();
    b1 := DriveTo(START, START, Progress(0, 0, 0), s2.chain[..n1], p1.saved);
    DoneIsImage(b1, s2.chain, n1, p1.saved, first, s1);
    chain, saved := s2.chain[..n2], p2.saved;
    b2 := GoOn(b1, s2.chain[..n1], p1.saved, chain, saved);
    DoneIsImage(b2, s2.chain, n2, saved, second, s2);
  }

  /** After a restart the run handles again what it had not saved, and goes on. */
  lemma GoOn(s: State, was: seq<Tx>, saved: nat, chain: seq<Tx>, goal: nat) returns (t: State)
    requires Done(s, was, saved) && ChainOk(chain) && was <= chain && saved <= goal <= |chain|
    ensures LeadsTo(s, t) && Done(t, chain, goal)
  {
    LeadsToItself(s);
    KeptByRestart(s, saved, |was|, |was|);
    LeadsOn(s, s, Restart);
    t := DriveTo(s, Next(s, Restart), Progress(saved, saved, |was|), chain, goal);
  }

  function Names(chain: seq<Tx>): (r: seq<string>)
    ensures |r| == |chain|
  {
    seq(|chain|, i requires 0 <= i < |chain| => chain[i].seen.signature)
  }

  lemma NamesOf(chain: seq<Tx>)
    requires ChainOk(chain)
    ensures forall i :: 0 <= i < |chain| ==> chain[i].seen.signature in Names(chain)
    ensures forall e :: e in EventsUpTo(chain, |chain|) ==> e.signature in Names(chain)
  {
    forall i | 0 <= i < |chain| ensures chain[i].seen.signature in Names(chain) {
      assert Names(chain)[i] in Names(chain);
    }
  }

  /** A slot the indexer is not past may yet gain a row of the mint, right behind any signature. */
  lemma UnsettledGains(first: Database, second: Database, mint: string, slot: nat, name: string, s1: State, s2: State)
    returns (b1: State, b2: State, t: State, later: Database, e: Event, names: seq<string>)
    requires Reachable(s1) && IsImage(first, s1) && LeadsTo(s1, s2) && IsImage(second, s2) && !Behind(second, slot)
    ensures Reachable(b1) && IsImage(first, b1) && LeadsTo(b1, b2) && IsImage(second, b2)
    ensures LeadsTo(b2, t) && IsImage(later, t) && e == NewEvent(name, names, mint, slot)
    ensures e in later.table && e !in second.table && !SameUpTo(second, later, mint, slot)
  {
    var chain: seq<Tx>, saved: nat;
    b1, b2, chain, saved := ServedWithoutMore(first, second, slot, s1, s2);
    names := Names(chain);
    e := NewEvent(name, names, mint, slot);
    TableNamed(b2, chain, saved, second);
    NewEventIsRead(second, mint, slot, name, names);
    later := WithRow(second, e);
    ChainWith(chain, name, mint, slot);
    t := Gains(b2, chain, saved, second, TxOf(e), later);
  }

  /** A transaction with this one event. */
  function TxOf(e: Event): Tx { Tx(Seen(e.signature, e.slot), [e]) }

  lemma TableNamed(s: State, chain: seq<Tx>, saved: nat, db: Database)
    requires Done(s, chain, saved) && IsImage(db, s)
    ensures forall row :: row in db.table ==> row.signature in Names(chain)
  {
    NamesOf(chain);
  }

  lemma ChainWith(chain: seq<Tx>, name: string, mint: string, slot: nat)
    requires ChainOk(chain) && forall i :: 0 <= i < |chain| ==> chain[i].seen.slot <= slot
    ensures ChainOk(chain + [TxOf(NewEvent(name, Names(chain), mint, slot))])
  {
    NamesOf(chain);
  }

  lemma Gains(s: State, chain: seq<Tx>, saved: nat, db: Database, tx: Tx, later: Database) returns (t: State)
    requires Done(s, chain, saved) && IsImage(db, s) && ChainOk(chain + [tx])
    requires Ordered(later) && later.cursor == db.cursor
    requires forall row :: row in later.table <==> row in db.table || row in tx.events
    ensures LeadsTo(s, t) && IsImage(later, t)
  {
    var p := Progress(saved, |chain|, |chain|);
    LeadsToItself(s);
    t := DriveTo(s, s, p, chain + [tx], saved);
    OneMoreTx(chain, tx);
    StoredAt(s, p, chain + [tx]);
  }

  lemma OneMoreTx(chain: seq<Tx>, tx: Tx)
    ensures EventsUpTo(chain + [tx], |chain + [tx]|) == EventsUpTo(chain, |chain|) + set e | e in tx.events
  {
    var all := chain + [tx];
    assert all[|chain|] == tx;
    forall e | e in tx.events ensures e in EventsUpTo(all, |all|) { InEventsUpTo(all, |all|, |chain|, e); }
    PrefixEvents(chain, all, |chain|);
  }

  /** A run leaves the first table and later the second. */
  ghost predicate ReadInRun(first: Database, second: Database) {
    exists s1, s2 :: Reachable(s1) && IsImage(first, s1) && LeadsTo(s1, s2) && IsImage(second, s2)
  }

  /** However a run that left these tables goes on, the rows up to the horizon they make stay what they are. */
  ghost predicate FinalInRuns(first: Database, second: Database, mint: string) {
    forall s1, s2, t, later ::
      Reachable(s1) && IsImage(first, s1) && LeadsTo(s1, s2) && IsImage(second, s2) && LeadsTo(s2, t) && IsImage(later, t)
      ==> SameUpTo(second, later, mint, HorizonOf(first, second, mint))
  }

  lemma {:induction false} StepsJoin(s: State, a: seq<Step>, t: State, b: seq<Step>, u: State)
    requires Steps(s, a, t) && Steps(t, b, u)
    ensures Steps(s, a + b, u)
    decreases |a|
  {
    if a == [] {
      assert a + b == b;
    } else {
      assert (a + b)[0] == a[0] && (a + b)[1..] == a[1..] + b;
      StepsJoin(Next(s, a[0]), a[1..], t, b, u);
    }
  }

  lemma LeadsToJoin(s: State, t: State, u: State)
    requires LeadsTo(s, t) && LeadsTo(t, u)
    ensures LeadsTo(s, u)
  {
    var a :| Steps(s, a, t);
    var b :| Steps(t, b, u);
    StepsJoin(s, a, t, b, u);
  }

  lemma RunsGrow(s: State, t: State, a: Database, b: Database)
    requires Reachable(s) && IsImage(a, s) && LeadsTo(s, t) && IsImage(b, t)
    ensures Grows(a, b)
  {
    var p := ReachableKept(s);
    var steps :| Steps(s, steps, t);
    RunGrows(s, steps, t, p, a, b);
  }

  /**
   * The horizon that two reads of a run make, the cursor from the first and the newest row from the
   * second, is final in every run exactly when the cursor was past slot zero at the first read, or
   * at the second one the stored cursor or some row, of any mint, is past the horizon.
   */
  lemma FinalExactly(first: Database, second: Database, mint: string)
    requires ReadInRun(first, second)
    ensures
      var h := HorizonOf(first, second, mint);
      FinalInRuns(first, second, mint) <==>
      Steady(first) || (second.cursor.Some? && second.cursor.value > h)
      || exists row :: row in second.table && row.slot > h
  {
    var h := HorizonOf(first, second, mint);
    var s1, s2 :| Reachable(s1) && IsImage(first, s1) && LeadsTo(s1, s2) && IsImage(second, s2);
    RunsGrow(s1, s2, first, second);
    if Steady(first) { SteadyIsSettled(first, second, mint); }
    if Behind(second, h) {
      forall s1, s2, t, later |
        Reachable(s1) && IsImage(first, s1) && LeadsTo(s1, s2) && IsImage(second, s2) && LeadsTo(s2, t) && IsImage(later, t)
        ensures SameUpTo(second, later, mint, h)
      {
        LeadsToJoin(START, s1, s2);
        RunsGrow(s2, t, second, later);
        SlotFinalExactly(second, mint, h);
      }
    } else {
      var b1, b2, t, later, e, names := UnsettledGains(first, second, mint, h, "", s1, s2);
    }
  }

  // ─── What is handled, what is skipped, what a failure stops ────────────────

  /** The signature of the cursor in memory is among those remembered, and they are no more than 256. */
  predicate CursorRemembered(s: State) {
    (s.cursor.Some? ==> s.cursor.value.signature in s.recent) && |s.recent| <= 256
  }

  /** The newest is remembered and, while fewer than 256 are, none is forgotten. */
  lemma RemembersNewest(recent: seq<string>, signature: string)
    requires |recent| <= 256
    ensures
      var r := Remember(recent, signature);
      && |r| <= 256 && signature in r
      && (|recent| < 256 ==> r == recent + [signature])
      && (|recent| == 256 ==> r == recent[1..] + [signature])
  {
    var all := recent + [signature];
    assert all[|recent|] == signature;
    if |recent| == 256 {
      assert all[1..] == recent[1..] + [signature];
      assert (recent[1..] + [signature])[255] == signature;
    }
  }

  lemma CursorRememberedInStep(s: State, step: Step)
    requires CursorRemembered(s) && Enabled(s, step)
    ensures CursorRemembered(Next(s, step))
  {
    if step.Handle? { RemembersNewest(s.recent, s.pending[0].signature); }
  }

  lemma {:induction false} CursorStaysRemembered(s: State, steps: seq<Step>, t: State)
    requires Steps(s, steps, t) && CursorRemembered(s)
    ensures CursorRemembered(t)
    decreases |steps|
  {
    if steps != [] {
      CursorRememberedInStep(s, steps[0]);
      CursorStaysRemembered(Next(s, steps[0]), steps[1..], t);
    }
  }

  /**
   * In every run the guard against repetition never skips what was not handled, and always skips the
   * transaction of the cursor and whatever lies in a slot before it.
   */
  lemma GuardSkipsOnlyHandled(s: State, p: Progress, i: nat)
    requires Reachable(s) && KeptAt(s, p) && i < |s.chain|
    ensures IsBehind(s, s.chain[i].seen) ==> i < p.reached
    ensures i + 1 == p.reached ==> IsBehind(s, s.chain[i].seen)
    ensures i < p.reached && s.chain[i].seen.slot < s.chain[p.reached - 1].seen.slot ==> IsBehind(s, s.chain[i].seen)
  {
    var steps :| Steps(START, steps, s);
    CursorStaysRemembered(START, steps, s);
  }

  /**
   * What handling does in every run: the next transaction of the chain, never another. A success
   * leaves all its events in the table, moves the cursor to it and goes on with the next; a failure
   * leaves the cursor where it was and stops the pass, its events written or not.
   */
  lemma HandlingIs(s: State, p: Progress, inserts: bool, fails: bool)
    requires KeptAt(s, p) && Enabled(s, Handle(inserts, fails))
    ensures p.reached < |s.chain| && s.pending[0] == s.chain[p.reached].seen
    ensures
      var t := Next(s, Handle(inserts, fails));
      var events := set e | e in s.chain[p.reached].events;
      && t.table == (if fails && !inserts then s.table else s.table + events)
      && t.stored == s.stored && t.chain == s.chain
      && (if fails then t.halted && t.pending == [] && t.cursor == s.cursor && t.recent == s.recent
          else
            && t.cursor == Some(s.pending[0]) && t.pending == s.pending[1..] && t.halted == s.halted
            && (|s.recent| < 256 ==> t.recent == s.recent + [s.pending[0].signature]))
  {
    HandlesNext(s, p.saved, p.reached, p.listed);
    AddedOnce(s.chain, s.written, p.reached);
    if |s.recent| < 256 { RemembersNewest(s.recent, s.pending[0].signature); }
  }

  /** After a restart the next pass goes on right behind the stored cursor, whatever the process had in memory. */
  lemma RestartResumes(s: State, p: Progress)
    requires KeptAt(s, p)
    ensures
      var t := Next(s, Restart);
      && t.table == s.table && t.stored == s.stored && t.cursor == s.stored && t.pending == [] && !t.halted
      && Enabled(t, StartPass) && Next(t, StartPass).pending == SeenOf(s.chain)[p.saved..]
  {
    KeptByRestart(s, p.saved, p.reached, p.listed);
    KeptByStart(Next(s, Restart), p.saved, p.saved, |s.chain|);
  }

  lemma AddedOnce(chain: seq<Tx>, written: nat, at: nat)
    requires ChainOk(chain) && at <= written <= |chain| && at < |chain|
    ensures InsertEvents(EventsUpTo(chain, written), chain[at].events)
            == EventsUpTo(chain, written) + set e | e in chain[at].events
  {
    RowsAfterHandle(chain, written, at);
    if at < written {
      forall e | e in chain[at].events ensures e in EventsUpTo(chain, written) { InEventsUpTo(chain, written, at, e); }
    } else {
      var table, all := EventsUpTo(chain, at), EventsUpTo(chain, at + 1);
      forall e | e in all ensures e in table || e in chain[at].events {
        var i, j :| 0 <= i < at + 1 && 0 <= j < |chain[i].events| && e == chain[i].events[j];
      }
      forall e | e in chain[at].events ensures e in all { InEventsUpTo(chain, at + 1, at, e); }
    }
  }

  ghost predicate NoNewPass(steps: seq<Step>) {
    forall i :: 0 <= i < |steps| ==> !steps[i].StartPass? && !steps[i].Restart?
  }

  /** After a failure nothing is written until the next pass or a restart. */
  lemma {:induction false} HaltedWritesNothing(s: State, steps: seq<Step>, t: State)
    requires s.halted && s.pending == [] && Steps(s, steps, t) && NoNewPass(steps)
    ensures t.table == s.table && t.cursor == s.cursor && t.halted && t.pending == []
    decreases |steps|
  {
    if steps != [] {
      assert !steps[0].StartPass? && !steps[0].Restart?;
      HaltedWritesNothing(Next(s, steps[0]), steps[1..], t);
    }
  }

  // ─── What can arrive behind the feed ───────────────────────────────────────

  /** Some run that left this table goes on to insert a row of the mint between two cursors. */
  ghost predicate GapMayOpen(a: Database, mint: string, origin: Option<Cursor>, cursor: Cursor) {
    exists s, t, later, e ::
      && Reachable(s) && IsImage(a, s) && LeadsTo(s, t) && IsImage(later, t)
      && e in later.table && e !in a.table && e.mint == mint && IsPast(origin, e) && !IsPast(Some(cursor), e)
  }

  /** The rows of a transaction are written all at once. */
  lemma NoMoreOfIt(s: State, t: State, a: Database, later: Database, row: Event, e: Event)
    requires Reachable(s) && IsImage(a, s) && LeadsTo(s, t) && IsImage(later, t)
    requires row in a.table && e in later.table && e.signature == row.signature
    ensures e in a.table
  {
    var p := ReachableKept(s);
    var steps :| Steps(s, steps, t);
    var q := RunKeeps(s, steps, t, p);
    PrefixEvents(s.chain, t.chain, s.written);
    SameTransaction(t.chain, s.written, t.written, row, e);
  }

  lemma SameTransaction(chain: seq<Tx>, n: nat, m: nat, row: Event, e: Event)
    requires ChainOk(chain) && n <= |chain| && m <= |chain|
    requires row in EventsUpTo(chain, n) && e in EventsUpTo(chain, m) && e.signature == row.signature
    ensures e in EventsUpTo(chain, n)
  {
    var i, j :| 0 <= i < n && 0 <= j < |chain[i].events| && row == chain[i].events[j];
    var k, l :| 0 <= k < m && 0 <= l < |chain[k].events| && e == chain[k].events[l];
    assert chain[i].seen.signature == row.signature && chain[k].seen.signature == e.signature;
    assert i == k;
  }

  lemma GapNeeds(a: Database, mint: string, origin: Option<Cursor>, row: Event)
    requires row in a.table && GapMayOpen(a, mint, origin, CursorOf(row))
    ensures !Behind(a, row.slot)
    ensures origin.None? || origin.value.slot < row.slot || origin.value.signature != row.signature
  {
    var s, t, later, e :|
      && Reachable(s) && IsImage(a, s) && LeadsTo(s, t) && IsImage(later, t)
      && e in later.table && e !in a.table && e.mint == mint && IsPast(origin, e) && !IsPast(Some(CursorOf(row)), e);
    RunsGrow(s, t, a, later);
    assert IsLate(a, e);
    if e.signature == row.signature { NoMoreOfIt(s, t, a, later, row, e); }
    BeforeIsOrder();
  }

  lemma GapOpens(a: Database, mint: string, origin: Option<Cursor>, row: Event, s: State)
    requires Reachable(s) && IsImage(a, s) && Plain(row.signature) && row.signature != "" && !Behind(a, row.slot)
    requires origin.None? || CursorLess(origin.value, CursorOf(row))
    requires origin.None? || origin.value.slot < row.slot || origin.value.signature != row.signature
    ensures GapMayOpen(a, mint, origin, CursorOf(row))
  {
    var name := if origin.Some? && origin.value.slot == row.slot then origin.value.signature else "";
    LeadsToItself(s);
    var b1, b2, t, later, e, names := UnsettledGains(a, a, mint, row.slot, name, s, s);
    NewIsBetween(origin, row, mint, name, names);
    LeadsToJoin(START, b1, b2);
    assert e in later.table && e !in a.table && e.mint == mint;
  }

  lemma NewIsBetween(origin: Option<Cursor>, row: Event, mint: string, name: string, names: seq<string>)
    requires Plain(row.signature) && row.signature != ""
    requires origin.None? || CursorLess(origin.value, CursorOf(row))
    requires origin.None? || origin.value.slot < row.slot || origin.value.signature != row.signature
    requires name == if origin.Some? && origin.value.slot == row.slot then origin.value.signature else ""
    ensures
      var e := NewEvent(name, names, mint, row.slot);
      IsPast(origin, e) && !IsPast(Some(CursorOf(row)), e)
  {
    AfterName(name, Longest(names) + 1, row.signature);
    BeforeIsOrder();
  }

  /**
   * When the feed stands at a row, something it has not sent can still arrive behind it exactly
   * when the indexer is not past the row's slot and the feed's origin is not in the row's own
   * transaction. For signatures as they are encoded, which never are the least of all strings.
   */
  lemma GapExactly(a: Database, mint: string, origin: Option<Cursor>, row: Event)
    requires exists s :: Reachable(s) && IsImage(a, s)
    requires row in a.table && Plain(row.signature) && row.signature != ""
    requires origin.None? || CursorLess(origin.value, CursorOf(row))
    ensures GapMayOpen(a, mint, origin, CursorOf(row)) <==>
            !Behind(a, row.slot)
            && (origin.None? || origin.value.slot < row.slot || origin.value.signature != row.signature)
  {
    if GapMayOpen(a, mint, origin, CursorOf(row)) { GapNeeds(a, mint, origin, row); }
    if !Behind(a, row.slot) && (origin.None? || origin.value.slot < row.slot || origin.value.signature != row.signature) {
      var s :| Reachable(s) && IsImage(a, s);
      GapOpens(a, mint, origin, row, s);
    }
  }

  // ─── Before the first cursor is saved ──────────────────────────────────────

  function SampleTx(signature: string): Tx {
    Tx(Seen(signature, 5), [Event(signature, 5, None, 0, "m", SAMPLE_BODY)])
  }

  const BEFORE_SAVE := State([SampleTx("s"), SampleTx("t")], {SampleTx("s").events[0]}, 1, None, Some(Seen("s", 5)), ["s"],
                             [Seen("t", 5)], false, true)

  const SAVED := BEFORE_SAVE.(stored := Some(Seen("s", 5)), saving := false)

  lemma SampleKept()
    ensures ChainOk(SAVED.chain) && KeptAt(BEFORE_SAVE, Progress(0, 1, 2)) && KeptAt(SAVED, Progress(1, 1, 2))
  {
    var s := BEFORE_SAVE;
    assert "s" != "t";
    assert EventsUpTo(s.chain, 1) == {SampleTx("s").events[0]};
    assert SeenOf(s.chain)[1..2] == [Seen("t", 5)];
    assert s.chain[0].seen.signature == "s";
  }

  const LISTED := State([SampleTx("s"), SampleTx("t")], {}, 0, None, None, [], [Seen("s", 5), Seen("t", 5)], false, false)

  const FIRST := START.(chain := [SampleTx("s")])

  const SECOND := START.(chain := [SampleTx("s"), SampleTx("t")])

  lemma SampleFinalized()
    ensures Reachable(SECOND)
  {
    assert "s" != "t";
    LeadsToItself(START);
    assert Next(START, Finalize(SampleTx("s"))) == FIRST;
    LeadsOn(START, START, Finalize(SampleTx("s")));
    assert Next(FIRST, Finalize(SampleTx("t"))) == SECOND;
    LeadsOn(START, FIRST, Finalize(SampleTx("t")));
  }

  lemma SampleListed()
    ensures Reachable(LISTED)
  {
    SampleFinalized();
    assert SeenOf(SECOND.chain) == LISTED.pending;
    assert Next(SECOND, StartPass) == LISTED;
    LeadsOn(START, SECOND, StartPass);
  }

  lemma SampleListedKept()
    ensures Kept(LISTED, 0, 0, 2)
  {
    assert "s" != "t";
    assert SeenOf(LISTED.chain)[0..2] == LISTED.pending;
  }

  lemma SampleReached()
    ensures Reachable(BEFORE_SAVE)
  {
    SampleListed();
    SampleListedKept();
    HandlesNext(LISTED, 0, 0, 2);
    assert InsertEvents({}, SampleTx("s").events) == {SampleTx("s").events[0]};
    assert Next(LISTED, Handle(true, false)) == BEFORE_SAVE;
    LeadsOn(START, LISTED, Handle(true, false));
  }

  lemma SampleNext()
    ensures Enabled(SAVED, Handle(true, false))
    ensures Next(SAVED, Handle(true, false)).table == {SampleTx("s").events[0], SampleTx("t").events[0]}
    ensures Next(SAVED, Handle(true, false)).stored == Some(Seen("s", 5))
  {
    SampleKept();
    HandlesNext(SAVED, 1, 1, 2);
    InsertNew(SAVED.chain, 1, 2);
    assert EventsUpTo(SAVED.chain, 2) == {SampleTx("s").events[0], SampleTx("t").events[0]};
  }

  /**
   * An instance: two transactions of one slot, the first one's row inserted and no cursor saved
   * yet. The row's slot counts as final, and the run goes on to insert the second one's row in it.
   */
  lemma NoCursorIsNotFinal()
    ensures Reachable(BEFORE_SAVE)
    ensures Enabled(BEFORE_SAVE, Save(false)) && Enabled(Next(BEFORE_SAVE, Save(false)), Handle(true, false))
    ensures
      var a := Database([SampleTx("s").events[0]], None);
      var b := Database([SampleTx("s").events[0], SampleTx("t").events[0]], Some(5));
      && IsImage(a, BEFORE_SAVE) && IsImage(b, Next(Next(BEFORE_SAVE, Save(false)), Handle(true, false)))
      && HorizonOf(a, a, "m") == 5 && Count(a, "m", Window(0, 5)) < Count(b, "m", Window(0, 5))
  {
    var e, f := SampleTx("s").events[0], SampleTx("t").events[0];
    SampleReached();
    SampleKept();
    SampleNext();
    assert Next(BEFORE_SAVE, Save(false)) == SAVED;
    assert Before("s", "t");
    assert Less(e, f);
    CountsOf(e, f);
  }

  /**
   * An instance of a cursor saved between the two reads: none at the first, at the second the row's
   * own slot, past slot zero. The horizon is that slot, and the same row goes in.
   */
  lemma SavedBetweenIsNotFinal()
    ensures Reachable(START) && LeadsTo(START, SAVED) && Enabled(SAVED, Handle(true, false))
    ensures
      var first, second := Database([], None), Database([SampleTx("s").events[0]], Some(5));
      var later := Database([SampleTx("s").events[0], SampleTx("t").events[0]], Some(5));
      && IsImage(first, START) && IsImage(second, SAVED) && IsImage(later, Next(SAVED, Handle(true, false)))
      && HorizonOf(first, second, "m") == 5 && Count(second, "m", Window(0, 5)) < Count(later, "m", Window(0, 5))
  {
    var e, f := SampleTx("s").events[0], SampleTx("t").events[0];
    LeadsToItself(START);
    SampleReached();
    SampleNext();
    assert Next(BEFORE_SAVE, Save(false)) == SAVED;
    LeadsOn(START, BEFORE_SAVE, Save(false));
    assert Before("s", "t");
    assert Less(e, f);
    CountsOf(e, f);
  }

  lemma CountsOf(e: Event, f: Event)
    requires e.mint == "m" && f.mint == "m" && e.slot == 5 && f.slot == 5
    ensures HorizonOf(Database([e], None), Database([e], None), "m") == 5
    ensures HorizonOf(Database([], None), Database([e], Some(5)), "m") == 5
    ensures Count(Database([e], None), "m", Window(0, 5)) == 1
    ensures Count(Database([e], Some(5)), "m", Window(0, 5)) == 1
    ensures Count(Database([e, f], Some(5)), "m", Window(0, 5)) == 2
  {
    assert Filter([e], OfMint("m")) == [e];
    assert Filter([e], InWindow("m", Window(0, 5))) == [e];
    assert [e, f][1..] == [f];
    assert Filter([f], InWindow("m", Window(0, 5))) == [f];
  }
}