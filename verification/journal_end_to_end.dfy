/** From the mirror through the exported file to the verifier's verdict. */
module JournalEndToEnd {
  import opened Common
  import opened Ordering
  import opened Events
  import opened JournalFormat
  import opened JournalStore
  import opened JournalRoutes
  import opened JournalFile
  import opened ChainIndex
  import opened Indexer
  import opened VerifyJournal

  /** The indexer is past this slot, and up to it the table holds exactly the events the chain shows. */
  ghost predicate Mirrors(db: Database, slot: nat, read: string -> Reading) {
    Behind(db, slot) && Ordered(db) && forall e: Event :: e.slot <= slot ==> (e in db.table <==> Shows(read, e))
  }

  /** The manifest an export writes. */
  function ManifestFor(at: nat -> Database, issuerId: string, mint: string, programId: string,
                       from: Option<Bound>, to: Option<Bound>): Manifest
  {
    var w := WindowFor(at(0), at(1), at(2), mint, from, to);
    Manifest(issuerId, mint, programId, w.fromSlot, w.toSlot, |Rows(at(1), mint, w)|,
             FrontierOf(at(0), at(1), mint).indexedThroughSlot)
  }

  lemma RowsAreChainJournal(db: Database, mint: string, m: Manifest, chain: Chain, programId: string)
    requires Mirrors(db, m.toSlot, Reader(chain, programId)) && m.mint == mint
    ensures IsChainJournal(Rows(db, mint, Window(m.fromSlot, m.toSlot)), m, chain, programId)
  {
    FilterAscending(db.table, InWindow(mint, Window(m.fromSlot, m.toSlot)), Less);
  }

  /**
   * A complete export of a mirror that is right up to the window's end has nothing wrong with it as
   * a file, and passes the verification exactly when its claims hold, the window being finalized
   * among them, and every transaction of the window can be read.
   */
  lemma ExportPasses(at: nat -> Database, issuerId: string, mint: string, programId: string,
                     from: Option<Bound>, to: Option<Bound>, lines: seq<Line>, chain: Chain, report: Report)
    requires
      var m := ManifestFor(at, issuerId, mint, programId, from, to);
      && Mirrors(at(1), m.toSlot, Reader(chain, programId)) && IndexComplete(chain, programId, m)
      && lines == FileOf(m, Rows(at(1), mint, Window(m.fromSlot, m.toSlot)))
    requires Describes(report, lines, chain, programId)
    ensures FileProblems(lines) == []
    ensures
      var m := ManifestFor(at, issuerId, mint, programId, from, to);
      report.passed <==> ClaimsHold(m, chain, programId) && AllReadable(m, chain, programId)
  {
    var m := ManifestFor(at, issuerId, mint, programId, from, to);
    var rows := Rows(at(1), mint, Window(m.fromSlot, m.toSlot));
    WindowBelowHorizon(at(0), at(1), at(2), mint, from, to);
    RowsAreChainJournal(at(1), mint, m, chain, programId);
    ChainFileIsFine(m, rows, chain, programId);
    PassesExactly(report, lines, chain, programId);
  }

  lemma ChainFileIsFine(m: Manifest, rows: seq<Event>, chain: Chain, programId: string)
    requires IsChainJournal(rows, m, chain, programId) && m.count == |rows| && m.toSlot <= m.indexedThroughSlot
    ensures ManifestOf(FileOf(m, rows)) == Some(m) && FileProblems(FileOf(m, rows)) == []
    ensures Honest(FileOf(m, rows), chain, programId) <==>
            ClaimsHold(m, chain, programId) && AllReadable(m, chain, programId)
  {
    ChainEventsHaveDistinctKeys(rows, m, chain, programId);
    EntriesOfFile(m, rows);
    NoProblems(FileOf(m, rows));
    HonestLines(m, rows, chain, programId);
  }

  /**
   * The export and its verification, one after the other: the file passes exactly when the export
   * came to its end, its claims hold and the window can be read.
   */
  method ExportAndVerify(at: nat -> Database, pages: nat, issuerId: string, mint: string, programId: string,
                         from: Option<Bound>, to: Option<Bound>, chain: Chain, concurrency: int, finishing: nat -> nat)
    returns (report: Report, written: nat)
    requires History(at) && IndexHistory(chain.index)
    requires
      var m := ManifestFor(at, issuerId, mint, programId, from, to);
      Mirrors(at(1), m.toSlot, Reader(chain, programId)) && IndexComplete(chain, programId, m)
    ensures
      var m := ManifestFor(at, issuerId, mint, programId, from, to);
      && (report.passed <==> written == m.count && ClaimsHold(m, chain, programId) && AllReadable(m, chain, programId))
      && (m.count / 500 < pages ==> written == m.count)
  {
    var lines: seq<Line>;
    ghost var events: seq<Event>;
    lines, written, events := Export(at, pages, issuerId, mint, programId, from, to, JOURNAL_PAGE);
    report := VerifyJournal.VerifyJournal(lines, chain, programId, concurrency, finishing);
    ghost var m := ManifestFor(at, issuerId, mint, programId, from, to);
    ghost var rows := Rows(at(1), mint, Window(m.fromSlot, m.toSlot));
    if written < |rows| {
      CutExportFails(m, rows, written, chain, programId, report);
    } else {
      assert rows[..written] == rows;
      ExportPasses(at, issuerId, mint, programId, from, to, lines, chain, report);
    }
  }

  /** An export cut short never passes. */
  lemma CutExportFails(m: Manifest, events: seq<Event>, kept: nat, chain: Chain, programId: string, report: Report)
    requires m.count == |events| && kept < |events|
    requires Describes(report, FileOf(m, events[..kept]), chain, programId)
    ensures !report.passed && WrongCount(|events|, kept) in report.problems
  {
    CutIsVisible(m, events, kept);
    EntriesOfFile(m, events[..kept]);
  }

  /** The verifier reads from the chain what the indexer writes, up to this slot. */
  ghost predicate SameReading(s: State, read: string -> Reading, upTo: nat) {
    forall e: Event :: e.slot <= upTo ==> (Shows(read, e) <==> e in EventsUpTo(s.chain, |s.chain|))
  }

  /**
   * From the chain to the verdict: whatever the indexer's run, with restarts and failures anywhere,
   * and however it goes on while the export reads, the exported file passes exactly when the export
   * came to its end, its claims hold and the window's transactions can be read.
   */
  method IndexExportAndVerify(states: nat -> State, at: nat -> Database, ghost p: Progress, pages: nat, issuerId: string,
                              mint: string, programId: string, from: Option<Bound>, to: Option<Bound>, chain: Chain,
                              concurrency: int, finishing: nat -> nat)
    returns (report: Report, written: nat)
    requires Served(states, at) && KeptAt(states(0), p) && IndexHistory(chain.index)
    requires
      var m := ManifestFor(at, issuerId, mint, programId, from, to);
      Behind(at(1), m.toSlot) && SameReading(states(1), Reader(chain, programId), m.toSlot)
      && IndexComplete(chain, programId, m)
    ensures
      var m := ManifestFor(at, issuerId, mint, programId, from, to);
      && (report.passed <==> written == m.count && ClaimsHold(m, chain, programId) && AllReadable(m, chain, programId))
      && (m.count / 500 < pages ==> written == m.count)
  {
    ghost var slot := ManifestFor(at, issuerId, mint, programId, from, to).toSlot;
    RunsAreHistories(states, at, p);
    ghost var q := ServedKeeps(states, at, p, 1);
    forall e: Event | e.slot <= slot ensures e in at(1).table <==> Shows(Reader(chain, programId), e) {
      HorizonMirrorsChain(states(1), q, at(1), slot, e);
    }
    report, written := ExportAndVerify(at, pages, issuerId, mint, programId, from, to, chain, concurrency, finishing);
  }
}
