/** The two readers of the mirror: the export and the live feed (apps/api/src/routes/journal.ts). */
module JournalRoutes {
  import opened Common
  import opened Ordering
  import opened Events
  import opened JournalFormat
  import opened JournalStore

  const JOURNAL_PAGE := 500
  const FEED_PAGE := 200
  const DEFAULT_BACKLOG := 50

  // ─── Pages in order ────────────────────────────────────────────────────────

  /** The cursor past a page. */
  function Advanced(cursor: Option<Cursor>, page: seq<Event>): Option<Cursor> {
    if page == [] then cursor else Some(CursorOf(page[|page| - 1]))
  }

  /** These rows of the mint were handed out one after the other, and whatever is past the cursor is past all of them. */
  ghost predicate Trail(events: seq<Event>, mint: string, start: Option<Cursor>, cursor: Option<Cursor>) {
    && Ascending(events, Less)
    && (forall e :: e in events ==> e.mint == mint && IsPast(start, e))
    && (forall e, x :: e in events && IsPast(cursor, x) ==> Less(e, x))
    && (forall x :: IsPast(cursor, x) ==> IsPast(start, x))
  }

  /** A page of rows past the cursor, ascending. */
  ghost predicate IsPageAfter(page: seq<Event>, mint: string, cursor: Option<Cursor>) {
    Ascending(page, Less) && forall e :: e in page ==> e.mint == mint && IsPast(cursor, e)
  }

  lemma PageIsAfter(db: Database, mint: string, w: Window, cursor: Option<Cursor>, limit: nat)
    requires Ordered(db)
    ensures IsPageAfter(Page(db, mint, w, cursor, limit), mint, cursor)
    ensures forall e :: e in Page(db, mint, w, cursor, limit) ==> InWindow(mint, w)(e) && e in db.table
  {
    RowsPastAscending(db, mint, w, cursor);
    var rows := RowsPast(db, mint, w, cursor);
    assert forall e :: e in First(rows, limit) ==> e in rows;
  }

  lemma PastPage(page: seq<Event>, mint: string, cursor: Option<Cursor>)
    requires IsPageAfter(page, mint, cursor)
    ensures forall x :: IsPast(Advanced(cursor, page), x) ==> IsPast(cursor, x)
    ensures forall e, x :: e in page && IsPast(Advanced(cursor, page), x) ==> Less(e, x)
  {
    CursorsOrdered();
    if page != [] {
      var last := page[|page| - 1];
      assert last in page;
      forall e | e in page ensures e == last || Less(e, last) {
        var k :| 0 <= k < |page| && page[k] == e;
      }
    }
  }

  lemma TrailGoesOn(events: seq<Event>, mint: string, start: Option<Cursor>, cursor: Option<Cursor>, page: seq<Event>)
    requires Trail(events, mint, start, cursor) && IsPageAfter(page, mint, cursor)
    ensures Trail(events + page, mint, start, Advanced(cursor, page))
  {
    PastPage(page, mint, cursor);
    var all := events + page;
    forall i, j | 0 <= i < j < |all| ensures Less(all[i], all[j]) {
      if j >= |events| { assert all[j] in page; }
      if i < |events| { assert all[i] in events; }
    }
  }

  lemma LinesGoOn(manifest: Manifest, events: seq<Event>, page: seq<Event>)
    ensures FileOf(manifest, events) + EventLines(page) == FileOf(manifest, events + page)
  {
    assert EventLines(events) + EventLines(page) == EventLines(events + page);
  }

  // ─── Export ────────────────────────────────────────────────────────────────

  lemma WindowBelowHorizon(first: Database, second: Database, third: Database, mint: string, from: Option<Bound>,
                           to: Option<Bound>)
    ensures WindowFor(first, second, third, mint, from, to).toSlot <= HorizonOf(first, second, mint)
  {
  }

  /** The indexer is past the horizon that the reads `k` and `k + 1` of the table make. */
  predicate SettledAt(at: nat -> Database, mint: string, k: nat) {
    Behind(at(k + 1), HorizonOf(at(k), at(k + 1), mint))
  }

  /** The export has written the first of the rows. */
  ghost predicate Walked(rows: seq<Event>, events: seq<Event>, after: Option<Cursor>, written: nat) {
    written <= |rows| && events == rows[..written] && after == CursorAt(None, rows, written)
  }

  /** At any later read the next page of a settled window is the next piece of the rows as they were at the start. */
  lemma ExportPage(first: Database, now: Database, mint: string, w: Window, n: nat, limit: nat)
    requires Grows(first, now) && Behind(first, w.toSlot) && n <= |Rows(first, mint, w)|
    ensures
      var rows := Rows(first, mint, w);
      Page(now, mint, w, CursorAt(None, rows, n), limit) == First(rows[n..], limit)
  {
    RowsPastNothing(first, mint, w);
    RowsFixed(first, now, mint, w, None);
    PageIsNext(now, mint, w, None, n, limit);
  }

  lemma ExportCount(first: Database, now: Database, mint: string, w: Window)
    requires Grows(first, now) && Behind(first, w.toSlot)
    ensures Count(now, mint, w) == |Rows(first, mint, w)|
  {
    RowsPastNothing(first, mint, w);
    RowsPastNothing(now, mint, w);
    RowsFixed(first, now, mint, w, None);
    RowsInsideWindow(first, mint, w, None);
  }

  lemma WalkedOn(rows: seq<Event>, events: seq<Event>, after: Option<Cursor>, n: nat, limit: nat, page: seq<Event>, next: nat)
    requires Walked(rows, events, after, n) && page == First(rows[n..], limit) && next == n + |page|
    ensures Walked(rows, events + page, Advanced(after, page), next)
    ensures |page| < limit ==> next == |rows|
  {
    assert rows[..n] + page == rows[..next];
  }

  ghost predicate AllIn(events: seq<Event>, mint: string, w: Window) {
    forall e :: e in events ==> InWindow(mint, w)(e)
  }

  /** Where the export stands: what it wrote, and over a settled window which rows that is. */
  ghost predicate Exporting(rows: seq<Event>, settled: bool, mint: string, w: Window, manifest: Manifest,
                            lines: seq<Line>, events: seq<Event>, after: Option<Cursor>, written: nat) {
    && lines == FileOf(manifest, events) && written == |events|
    && Trail(events, mint, None, after) && AllIn(events, mint, w)
    && (settled ==> Walked(rows, events, after, written))
  }

  lemma ExportingAtStart(rows: seq<Event>, settled: bool, mint: string, w: Window, manifest: Manifest)
    ensures Exporting(rows, settled, mint, w, manifest, FileOf(manifest, []), [], None, 0)
  {
  }

  lemma ExportTurn(first: Database, now: Database, rows: seq<Event>, mint: string, w: Window, manifest: Manifest,
                   lines: seq<Line>, events: seq<Event>, after: Option<Cursor>, n: nat, limit: nat,
                   page: seq<Event>, next: nat)
    requires Grows(first, now) && rows == Rows(first, mint, w)
    requires Exporting(rows, Behind(first, w.toSlot), mint, w, manifest, lines, events, after, n)
    requires page == Page(now, mint, w, after, limit) && next == n + |page|
    ensures Exporting(rows, Behind(first, w.toSlot), mint, w, manifest, lines + EventLines(page), events + page,
                      Advanced(after, page), next)
    ensures Behind(first, w.toSlot) && |page| < limit ==> next == |rows|
  {
    PageIsAfter(now, mint, w, after, limit);
    TrailGoesOn(events, mint, None, after, page);
    LinesGoOn(manifest, events, page);
    if Behind(first, w.toSlot) {
      ExportPage(first, now, mint, w, n, limit);
      WalkedOn(rows, events, after, n, limit, page, next);
    }
  }

  predicate PagesFull(turns: nat, limit: nat, written: nat) { written == turns * limit }

  lemma FullPages(turn: nat, next: nat, limit: nat, written: nat, after: nat)
    requires next == turn + 1 && PagesFull(turn, limit, written) && after == written + limit
    ensures PagesFull(next, limit, after)
  {
  }

  /** So many pages, some of them not full, hold this many rows. */
  predicate Suffices(pages: nat, limit: nat, rows: nat)
    requires limit >= 1
  {
    rows / limit < pages
  }

  lemma FullPagesSuffice(pages: nat, limit: nat, rows: nat, written: nat)
    requires limit >= 1 && PagesFull(pages, limit, written) && written <= rows
    ensures !Suffices(pages, limit, rows)
  {
    assert rows / limit * limit <= rows < (rows / limit + 1) * limit;
    if pages > rows / limit { Times(rows / limit + 1, pages, limit); }
  }

  lemma Times(a: nat, b: nat, c: nat)
    requires a <= b
    ensures a * c <= b * c
  {
  }

  /** One page of the export, from the fifth read of the table on. */
  function PageAt(at: nat -> Database, turn: nat, mint: string, w: Window, after: Option<Cursor>, limit: nat): seq<Event> {
    Page(at(4 + turn), mint, w, after, limit)
  }

  lemma TurnAt(at: nat -> Database, turn: nat, settled: bool, mint: string, w: Window, manifest: Manifest, lines: seq<Line>,
               events: seq<Event>, after: Option<Cursor>, n: nat, limit: nat, page: seq<Event>, next: nat)
    requires History(at) && settled == Behind(at(1), w.toSlot)
    requires Exporting(Rows(at(1), mint, w), settled, mint, w, manifest, lines, events, after, n)
    requires page == PageAt(at, turn, mint, w, after, limit) && next == n + |page|
    ensures Exporting(Rows(at(1), mint, w), settled, mint, w, manifest, lines + EventLines(page), events + page,
                      Advanced(after, page), next)
    ensures settled && |page| < limit ==> next == |Rows(at(1), mint, w)|
  {
    HistoryGrows(at, 1, 4 + turn);
    ExportTurn(at(1), at(4 + turn), Rows(at(1), mint, w), mint, w, manifest, lines, events, after, n, limit, page, next);
  }

  /** The manifest and then page after page. */
  method WritePages(at: nat -> Database, pages: nat, mint: string, window: Window, manifest: Manifest, pageSize: nat)
    returns (lines: seq<Line>, written: nat, ghost events: seq<Event>, ghost cursor: Option<Cursor>)
    requires History(at) && pageSize >= 1
    ensures Exporting(Rows(at(1), mint, window), Behind(at(1), window.toSlot), mint, window, manifest, lines, events, cursor,
                      written)
    ensures
      Behind(at(1), window.toSlot) && Suffices(pages, pageSize, |Rows(at(1), mint, window)|) ==>
        written == |Rows(at(1), mint, window)|
  {
    lines, written, events, cursor := FileOf(manifest, []), 0, [], None;
    var after: Option<Cursor> := None;
    ghost var rows, settled := Rows(at(1), mint, window), Behind(at(1), window.toSlot);
    ExportingAtStart(rows, settled, mint, window, manifest);
    for turn := 0 to pages
      invariant PagesFull(turn, pageSize, written) && after == cursor
      invariant Exporting(rows, settled, mint, window, manifest, lines, events, cursor, written)
    {
      var page := PageAt(at, turn, mint, window, after, pageSize);
      ghost var before := written;
      written := written + |page|;
      TurnAt(at, turn, settled, mint, window, manifest, lines, events, after, before, pageSize, page, written);
      lines, events := lines + EventLines(page), events + page;
      after := Advanced(after, page);
      cursor := after;
      if |page| < pageSize { return; }
      FullPages(turn, turn + 1, pageSize, before, written);
    }
    if settled { FullPagesSuffice(pages, pageSize, |rows|, written); }
  }

  /**
   * The k-th read of the table sees it as `at(k)`, and the connection lasts for so many pages. What
   * is written is the manifest and then rows of the window in strict order, none twice. When the
   * indexer is past the window's end they are the rows as they were when the frontier was read, as
   * many as declared, and all of them unless the connection was gone before that many pages.
   */
  method Export(at: nat -> Database, pages: nat, issuerId: string, mint: string, programId: string,
                from: Option<Bound>, to: Option<Bound>, pageSize: nat)
    returns (lines: seq<Line>, written: nat, ghost events: seq<Event>)
    requires History(at) && pageSize >= 1
    ensures written == |events| && Ascending(events, Less)
    ensures AllIn(events, mint, WindowFor(at(0), at(1), at(2), mint, from, to))
    ensures
      var w := WindowFor(at(0), at(1), at(2), mint, from, to);
      lines == FileOf(Manifest(issuerId, mint, programId, w.fromSlot, w.toSlot, Count(at(3), mint, w),
                               FrontierOf(at(0), at(1), mint).indexedThroughSlot), events)
    ensures
      var w := WindowFor(at(0), at(1), at(2), mint, from, to);
      var rows := Rows(at(1), mint, w);
      Behind(at(1), w.toSlot) ==>
        && Count(at(3), mint, w) == |rows|
        && written <= |rows| && events == rows[..written]
        && lines == FileOf(Manifest(issuerId, mint, programId, w.fromSlot, w.toSlot, |rows|,
                                    FrontierOf(at(0), at(1), mint).indexedThroughSlot), rows[..written])
        && (|rows| / pageSize < pages ==> written == |rows|)
  {
    var frontier := FrontierOf(at(0), at(1), mint);
    var window := WindowFor(at(0), at(1), at(2), mint, from, to);
    var count := Count(at(3), mint, window);
    HistoryGrows(at, 1, 3);
    if Behind(at(1), window.toSlot) { ExportCount(at(1), at(3), mint, window); }
    var manifest := Manifest(issuerId, mint, programId, window.fromSlot, window.toSlot, count, frontier.indexedThroughSlot);
    ghost var cursor: Option<Cursor>;
    lines, written, events, cursor := WritePages(at, pages, mint, window, manifest, pageSize);
  }

  /** Without bounds and from a stored cursor on, the rows an export writes are all those of the mint below the cursor. */
  lemma UnboundedExport(at: nat -> Database, mint: string, e: Event)
    requires History(at) && Steady(at(0))
    ensures
      var w := WindowFor(at(0), at(1), at(2), mint, None, None);
      && Behind(at(1), w.toSlot)
      && (e in Rows(at(1), mint, w) <==> e in at(1).table && e.mint == mint && e.slot < at(0).cursor.value)
  {
    assert GrowsAfter(at, 0);
    WithoutBounds(at(0), at(1), at(2), mint, e);
    SteadyIsSettled(at(0), at(1), mint);
  }

  // ─── Feed ──────────────────────────────────────────────────────────────────

  /** A message of the stream; its id is the cursor past it. */
  datatype Message = Message(id: string, event: Event)

  function MessageOf(e: Event): Message { Message(FormatCursor(CursorOf(e)), e) }

  function Messages(events: seq<Event>): (r: seq<Message>)
    ensures |r| == |events|
  {
    seq(|events|, i requires 0 <= i < |events| => MessageOf(events[i]))
  }

  function Backlog(asked: Option<nat>): nat {
    if asked.Some? then asked.value else DEFAULT_BACKLOG
  }

  lemma TailIsPage(db: Database, mint: string, w: Window, limit: nat)
    requires Ordered(db)
    ensures IsPageAfter(Tail(db, mint, w, limit), mint, None)
  {
    FilterAscending(db.table, InWindow(mint, w), Less);
    var rows := Rows(db, mint, w);
    assert forall e :: e in Last(rows, limit) ==> e in rows;
  }

  /** What the feed opens with is in order, whether it is sent or only its last cursor taken. */
  lemma TrailAtOpening(recent: seq<Event>, mint: string, sends: bool)
    requires IsPageAfter(recent, mint, None)
    ensures Trail(if sends then recent else [], mint, None, Advanced(None, recent))
  {
    TrailGoesOn([], mint, None, None, recent);
    assert [] + recent == recent;
  }

  lemma MessagesGoOn(events: seq<Event>, page: seq<Event>)
    ensures Messages(events) + Messages(page) == Messages(events + page)
  {
  }

  /** The j-th pass takes its frontier from the reads `3 * j` and `3 * j + 1` and its rows from the next one. */
  function HorizonAt(at: nat -> Database, mint: string, j: nat): nat { HorizonOf(at(3 * j), at(3 * j + 1), mint) }

  function RowsAt(at: nat -> Database, j: nat): Database { at(3 * j + 2) }

  /** Where the feed begins: at the resume point, else the backlog short of the end of what is readable. */
  function OriginOf(at: nat -> Database, mint: string, resume: Option<Cursor>, asked: Option<nat>): Option<Cursor> {
    if resume.Some? then resume
    else CursorBefore(Rows(at(2), mint, Window(0, HorizonAt(at, mint, 0))), Backlog(asked))
  }

  /** How many rows come before the last so many. */
  function Early(rows: seq<Event>, last: nat): (n: nat)
    ensures n <= |rows|
  {
    |rows| - Min(last, |rows|)
  }

  function CursorBefore(rows: seq<Event>, last: nat): Option<Cursor> { CursorAt(None, rows, Early(rows, last)) }

  /** A feed without a resume point begins so that it opens with the rows asked for, fifty when nothing is, or all if they are fewer. */
  lemma OriginLeavesBacklog(at: nat -> Database, mint: string, asked: Option<nat>)
    requires Ordered(at(2))
    ensures
      var w := Window(0, HorizonOf(at(0), at(1), mint));
      var wanted := if asked.Some? then asked.value else 50;
      && RowsPast(at(2), mint, w, OriginOf(at, mint, None, asked)) == Last(Rows(at(2), mint, w), wanted)
      && |Last(Rows(at(2), mint, w), wanted)| == Min(wanted, |Rows(at(2), mint, w)|)
  {
    var w := Window(0, HorizonAt(at, mint, 0));
    var rows := Rows(at(2), mint, w);
    var n := Early(rows, Backlog(asked));
    RowsPastNothing(at(2), mint, w);
    NextIsRest(at(2), mint, w, None, n);
    var rest := RowsPast(at(2), mint, w, OriginOf(at, mint, None, asked));
    RowsPastAscending(at(2), mint, w, OriginOf(at, mint, None, asked));
    RowsPastAscending(at(2), mint, w, None);
    LessIsOrder();
    AscendingUnique(rest, rows[n..], Less);
    AllOrLast(rows, Backlog(asked), n);
  }

  lemma AllOrLast(rows: seq<Event>, wanted: nat, n: nat)
    requires n == Early(rows, wanted)
    ensures Last(rows, wanted) == rows[n..]
  {
    if |rows| <= wanted { assert n == 0 && rows[0..] == rows; }
  }

  /** The rows of the mint in this state from the origin up to the cursor are exactly what was handed out. */
  ghost predicate Gapless(db: Database, mint: string, origin: Option<Cursor>, cursor: Option<Cursor>, events: seq<Event>) {
    Reaches(origin, cursor) && events == Between(db, mint, origin, cursor)
  }

  /** The first rows are those up to the last one of them. */
  lemma FirstAreUpTo(rows: seq<Event>, limit: nat, e: Event)
    requires Ascending(rows, Less) && limit >= 1 && rows != []
    ensures
      var page := First(rows, limit);
      page != [] && (e in page <==> e in rows && !Less(page[|page| - 1], e))
  {
    var page := First(rows, limit);
    var last := page[|page| - 1];
    LessIsOrder();
    if e in page {
      var k :| 0 <= k < |page| && page[k] == e;
      assert rows[k] == e;
    } else if e in rows {
      var k :| 0 <= k < |rows| && rows[k] == e;
      assert last == rows[|page| - 1];
      assert forall i :: 0 <= i < |page| ==> rows[i] == page[i] && page[i] in page;
    }
  }

  lemma NotPast(last: Event, e: Event)
    ensures IsPast(Some(CursorOf(last)), e) <==> Less(last, e)
    ensures !Less(last, e) ==> e.slot <= last.slot
  {
    CursorsOrdered();
  }

  lemma OnPage(db: Database, mint: string, w: Window, cursor: Option<Cursor>, limit: nat, last: Event, e: Event)
    requires Ordered(db) && w.fromSlot == 0 && !IsEmpty(w) && limit >= 1
    requires
      var rows := RowsPast(db, mint, w, cursor);
      rows != [] && last == First(rows, limit)[|First(rows, limit)| - 1] && last in rows
    ensures e in First(RowsPast(db, mint, w, cursor), limit) <==> e in Between(db, mint, cursor, Some(CursorOf(last)))
  {
    var rows := RowsPast(db, mint, w, cursor);
    RowsPastAscending(db, mint, w, cursor);
    FirstAreUpTo(rows, limit, e);
    NotPast(last, e);
  }

  lemma PageMember(db: Database, mint: string, w: Window, cursor: Option<Cursor>, limit: nat, page: seq<Event>, e: Event)
    requires Ordered(db) && w.fromSlot == 0 && page == Page(db, mint, w, cursor, limit)
    ensures e in page <==> e in Between(db, mint, cursor, Advanced(cursor, page))
  {
    if page != [] {
      LastInRows(RowsPast(db, mint, w, cursor), limit);
      OnPage(db, mint, w, cursor, limit, page[|page| - 1], e);
    }
  }

  lemma LastInRows(rows: seq<Event>, limit: nat)
    requires First(rows, limit) != []
    ensures limit >= 1 && rows != [] && First(rows, limit)[|First(rows, limit)| - 1] in rows
  {
  }

  /** A page is everything between the cursor before it and the cursor after it. */
  lemma PageIsBetween(db: Database, mint: string, w: Window, cursor: Option<Cursor>, limit: nat)
    requires Ordered(db) && w.fromSlot == 0
    ensures
      var page := Page(db, mint, w, cursor, limit);
      page == Between(db, mint, cursor, Advanced(cursor, page)) && Reaches(cursor, Advanced(cursor, page))
  {
    var page := Page(db, mint, w, cursor, limit);
    forall e ensures e in page <==> e in Between(db, mint, cursor, Advanced(cursor, page)) {
      PageMember(db, mint, w, cursor, limit, page, e);
    }
    PageIsAfter(db, mint, w, cursor, limit);
    PastPage(page, mint, cursor);
    BetweenAscending(db, mint, cursor, Advanced(cursor, page));
    LessIsOrder();
    AscendingUnique(page, Between(db, mint, cursor, Advanced(cursor, page)), Less);
  }

  /** A closed cursor misses nothing until the next page, and the page goes on from it. */
  lemma GaplessOn(before: Database, now: Database, mint: string, origin: Option<Cursor>, cursor: Option<Cursor>,
                  events: seq<Event>, w: Window, limit: nat, page: seq<Event>)
    requires Grows(before, now) && Closed(before, origin, cursor) && Gapless(before, mint, origin, cursor, events)
    requires w.fromSlot == 0 && page == Page(now, mint, w, cursor, limit)
    ensures Gapless(now, mint, origin, Advanced(cursor, page), events + page)
  {
    BetweenFixed(before, now, mint, origin, cursor);
    PageIsBetween(now, mint, w, cursor, limit);
    BetweenJoins(now, mint, origin, cursor, Advanced(cursor, page));
    Ends(origin, cursor, Advanced(cursor, page));
  }

  lemma SomethingBetween(db: Database, mint: string, start: Option<Cursor>, end: Option<Cursor>)
    ensures Between(db, mint, start, end) != [] ==> exists e :: IsPast(start, e) && !IsPast(end, e)
  {
    var rows := Between(db, mint, start, end);
    if rows != [] { assert rows[0] in rows; }
  }

  lemma NothingBetween(db: Database, mint: string, cursor: Option<Cursor>)
    ensures Gapless(db, mint, cursor, cursor, [])
  {
    SomethingBetween(db, mint, cursor, cursor);
  }

  /** From any of its rows on, a window from slot zero is what lies between the cursor before that row and its end. */
  lemma RestIsGapless(db: Database, mint: string, w: Window, from: nat)
    requires Ordered(db) && w.fromSlot == 0 && from <= |Rows(db, mint, w)|
    ensures
      var rows := Rows(db, mint, w);
      Gapless(db, mint, CursorAt(None, rows, from), CursorAt(None, rows, |rows|), rows[from..])
  {
    var rows := Rows(db, mint, w);
    var origin := CursorAt(None, rows, from);
    RowsPastNothing(db, mint, w);
    PageIsNext(db, mint, w, None, from, |rows|);
    PageIsBetween(db, mint, w, origin, |rows|);
    assert First(rows[from..], |rows|) == rows[from..];
    AdvancedToEnd(rows, from);
  }

  lemma AdvancedToEnd(rows: seq<Event>, from: nat)
    requires from <= |rows|
    ensures Advanced(CursorAt(None, rows, from), rows[from..]) == CursorAt(None, rows, |rows|)
  {
    if from < |rows| { assert rows[from..][|rows| - from - 1] == rows[|rows| - 1]; }
  }

  lemma LastEnds(rows: seq<Event>, n: nat)
    requires n >= 1
    ensures Advanced(None, Last(rows, n)) == CursorAt(None, rows, |rows|)
    ensures Last(rows, n) == rows[Early(rows, n)..]
  {
    if |rows| <= n {
      assert Early(rows, n) == 0 && rows[0..] == rows;
    } else {
      assert rows[|rows| - n..][n - 1] == rows[|rows| - 1];
    }
  }

  /** What the feed opens with is everything from its origin on. */
  lemma OpeningIsGapless(db: Database, mint: string, w: Window, backlog: nat, recent: seq<Event>)
    requires Ordered(db) && w.fromSlot == 0 && recent == Tail(db, mint, w, if backlog < 1 then 1 else backlog)
    ensures
      Gapless(db, mint, CursorBefore(Rows(db, mint, w), backlog), Advanced(None, recent),
              if backlog > 0 then recent else [])
  {
    if backlog == 0 {
      OpeningSilent(db, mint, w, recent);
    } else {
      OpeningSends(db, mint, w, backlog, recent);
    }
  }

  lemma TailIsLast(db: Database, mint: string, w: Window, limit: nat)
    ensures Tail(db, mint, w, limit) == Last(Rows(db, mint, w), limit)
  {
    var rows := Rows(db, mint, w);
    if rows != [] {
      assert rows[0] in rows;
      assert !IsEmpty(w);
    }
  }

  lemma LastAreAmong(rows: seq<Event>, limit: nat, e: Event)
    requires e in Last(rows, limit)
    ensures e in rows
  {
  }

  lemma OpeningSilent(db: Database, mint: string, w: Window, recent: seq<Event>)
    requires recent == Tail(db, mint, w, 1)
    ensures Gapless(db, mint, CursorBefore(Rows(db, mint, w), 0), Advanced(None, recent), [])
  {
    var rows := Rows(db, mint, w);
    TailIsLast(db, mint, w, 1);
    LastEnds(rows, 1);
    NoneLeft(rows);
    NothingBetween(db, mint, CursorAt(None, rows, |rows|));
  }

  lemma NoneLeft(rows: seq<Event>)
    ensures CursorBefore(rows, 0) == CursorAt(None, rows, |rows|)
  {
    assert Early(rows, 0) == |rows|;
  }

  lemma OpeningSends(db: Database, mint: string, w: Window, backlog: nat, recent: seq<Event>)
    requires Ordered(db) && w.fromSlot == 0 && backlog >= 1 && recent == Tail(db, mint, w, backlog)
    ensures Gapless(db, mint, CursorBefore(Rows(db, mint, w), backlog), Advanced(None, recent), recent)
  {
    var rows := Rows(db, mint, w);
    TailIsLast(db, mint, w, backlog);
    LastEnds(rows, backlog);
    RestIsGapless(db, mint, w, Early(rows, backlog));
  }

  /** The horizon of the last pass leaves nothing behind: every row up to it has been handed out or lies before the origin. */
  ghost predicate CaughtUp(db: Database, mint: string, slot: nat, cursor: Option<Cursor>) {
    forall e :: e in db.table && e.mint == mint && e.slot <= slot ==> !IsPast(cursor, e)
  }

  lemma ShortPageCatchesUp(db: Database, mint: string, slot: nat, cursor: Option<Cursor>, limit: nat)
    requires Ordered(db) && |Page(db, mint, Window(0, slot), cursor, limit)| < limit
    ensures CaughtUp(db, mint, slot, Advanced(cursor, Page(db, mint, Window(0, slot), cursor, limit)))
  {
    var page := Page(db, mint, Window(0, slot), cursor, limit);
    var rows := RowsPast(db, mint, Window(0, slot), cursor);
    assert page == rows;
    PageIsAfter(db, mint, Window(0, slot), cursor, limit);
    PastPage(page, mint, cursor);
    LessIsOrder();
    forall e | e in db.table && e.mint == mint && e.slot <= slot && IsPast(Advanced(cursor, page), e) ensures Less(e, e) {
      assert e in rows;
    }
  }

  /** From a stored cursor on, a feed that has caught up has no row of the mint below that cursor left to send. */
  lemma CaughtUpToCursor(at: nat -> Database, mint: string, j: nat, cursor: Option<Cursor>)
    requires Steady(at(3 * j)) && CaughtUp(RowsAt(at, j), mint, HorizonAt(at, mint, j), cursor)
    ensures forall e :: e in RowsAt(at, j).table && e.mint == mint && e.slot < at(3 * j).cursor.value ==> !IsPast(cursor, e)
  {
  }

  /** At every stop but the last the cursor was closed when the next pass came. */
  ghost predicate Unbroken(at: nat -> Database, origin: Option<Cursor>, stops: seq<Option<Cursor>>) {
    forall j :: 0 <= j < |stops| - 1 ==> Closed(RowsAt(at, j), origin, stops[j])
  }

  /** The indexer was past the horizon of this pass when the pass read it. */
  predicate PassSettled(at: nat -> Database, mint: string, j: nat) { SettledAt(at, mint, 3 * j) }

  /** Every horizon the feed read was behind the indexer. */
  ghost predicate AllSettled(at: nat -> Database, mint: string, passes: nat) {
    forall j :: 0 <= j <= passes ==> PassSettled(at, mint, j)
  }

  /** With a cursor past slot zero every horizon is. */
  lemma SteadySettlesAll(at: nat -> Database, mint: string, passes: nat)
    requires History(at) && Steady(at(0))
    ensures AllSettled(at, mint, passes)
  {
    forall j | 0 <= j <= passes ensures PassSettled(at, mint, j) {
      HistoryGrows(at, 0, 3 * j);
      assert GrowsAfter(at, 3 * j);
      SteadyIsSettled(at(3 * j), at(3 * j + 1), mint);
    }
  }

  /** Everything handed out so far, in the state of the j-th pass. */
  ghost predicate Fed(at: nat -> Database, j: nat, mint: string, origin: Option<Cursor>, cursor: Option<Cursor>,
                      stops: seq<Option<Cursor>>, events: seq<Event>) {
    && |stops| == j + 1 && stops[j] == cursor
    && (Unbroken(at, origin, stops) ==> Gapless(RowsAt(at, j), mint, origin, cursor, events))
    && (AllSettled(at, mint, j) ==>
          Unbroken(at, origin, stops) && Closed(RowsAt(at, j), origin, cursor))
  }

  lemma SettledPageCloses(at: nat -> Database, j: nat, mint: string, cursor: Option<Cursor>, limit: nat, page: seq<Event>)
    requires History(at) && SettledAt(at, mint, 3 * j)
    requires page == Page(RowsAt(at, j), mint, Window(0, HorizonAt(at, mint, j)), cursor, limit)
    ensures page != [] ==> Behind(RowsAt(at, j), Advanced(cursor, page).value.slot)
  {
    assert GrowsAfter(at, 3 * j + 1);
    PageIsAfter(RowsAt(at, j), mint, Window(0, HorizonAt(at, mint, j)), cursor, limit);
    if page != [] {
      assert page[|page| - 1] in page;
      BehindStays(at(3 * j + 1), RowsAt(at, j), HorizonAt(at, mint, j), page[|page| - 1].slot);
    }
  }

  lemma ClosedStays(a: Database, b: Database, origin: Option<Cursor>, cursor: Option<Cursor>)
    requires Grows(a, b) && Closed(a, origin, cursor)
    ensures Closed(b, origin, cursor)
  {
    if cursor != origin && cursor.Some? { BehindStays(a, b, cursor.value.slot, cursor.value.slot); }
  }

  lemma UnbrokenOn(at: nat -> Database, origin: Option<Cursor>, stops: seq<Option<Cursor>>, cursor: Option<Cursor>, j: nat)
    requires |stops| == j + 1
    ensures Unbroken(at, origin, stops + [cursor]) <==>
            Unbroken(at, origin, stops) && Closed(RowsAt(at, j), origin, stops[j])
  {
    var more := stops + [cursor];
    assert forall i :: 0 <= i < |stops| ==> more[i] == stops[i];
    if Unbroken(at, origin, more) { assert Closed(RowsAt(at, j), origin, more[j]); }
    if Unbroken(at, origin, stops) && Closed(RowsAt(at, j), origin, stops[j]) {
      forall i | 0 <= i < |more| - 1 ensures Closed(RowsAt(at, i), origin, more[i]) {
        if i < |stops| - 1 { assert Closed(RowsAt(at, i), origin, stops[i]); }
      }
    }
  }

  lemma StillGapless(at: nat -> Database, j: nat, next: nat, mint: string, origin: Option<Cursor>, cursor: Option<Cursor>,
                     stops: seq<Option<Cursor>>, events: seq<Event>, page: seq<Event>)
    requires History(at) && next == j + 1 && Fed(at, j, mint, origin, cursor, stops, events)
    requires page == Page(RowsAt(at, next), mint, Window(0, HorizonAt(at, mint, next)), cursor, FEED_PAGE)
    requires Unbroken(at, origin, stops) && Closed(RowsAt(at, j), origin, cursor)
    ensures Gapless(RowsAt(at, next), mint, origin, Advanced(cursor, page), events + page)
  {
    HistoryGrows(at, 3 * j + 2, 3 * next + 2);
    GaplessOn(RowsAt(at, j), RowsAt(at, next), mint, origin, cursor, events,
              Window(0, HorizonAt(at, mint, next)), FEED_PAGE, page);
  }

  lemma StillClosed(at: nat -> Database, j: nat, next: nat, mint: string, origin: Option<Cursor>, cursor: Option<Cursor>,
                    page: seq<Event>)
    requires History(at) && next == j + 1 && Closed(RowsAt(at, j), origin, cursor) && SettledAt(at, mint, 3 * next)
    requires page == Page(RowsAt(at, next), mint, Window(0, HorizonAt(at, mint, next)), cursor, FEED_PAGE)
    ensures Closed(RowsAt(at, next), origin, Advanced(cursor, page))
  {
    HistoryGrows(at, 3 * j + 2, 3 * next + 2);
    ClosedStays(RowsAt(at, j), RowsAt(at, next), origin, cursor);
    SettledPageCloses(at, next, mint, cursor, FEED_PAGE, page);
  }

  lemma FedOn(at: nat -> Database, j: nat, next: nat, mint: string, origin: Option<Cursor>, cursor: Option<Cursor>,
              stops: seq<Option<Cursor>>, events: seq<Event>, page: seq<Event>)
    requires History(at) && next == j + 1 && Fed(at, j, mint, origin, cursor, stops, events)
    requires page == Page(RowsAt(at, next), mint, Window(0, HorizonAt(at, mint, next)), cursor, FEED_PAGE)
    ensures Fed(at, next, mint, origin, Advanced(cursor, page), stops + [Advanced(cursor, page)], events + page)
  {
    var after := Advanced(cursor, page);
    UnbrokenOn(at, origin, stops, after, j);
    if Unbroken(at, origin, stops + [after]) {
      StillGapless(at, j, next, mint, origin, cursor, stops, events, page);
    }
    if AllSettled(at, mint, next) {
      AllSettledBefore(at, mint, j, next);
      StillClosed(at, j, next, mint, origin, cursor, page);
    }
  }

  lemma AllSettledBefore(at: nat -> Database, mint: string, j: nat, next: nat)
    requires AllSettled(at, mint, next) && j <= next
    ensures AllSettled(at, mint, j) && SettledAt(at, mint, 3 * next)
  {
    assert PassSettled(at, mint, next);
  }

  lemma FedAtStart(at: nat -> Database, mint: string, origin: Option<Cursor>, cursor: Option<Cursor>, events: seq<Event>)
    requires Gapless(RowsAt(at, 0), mint, origin, cursor, events)
    requires AllSettled(at, mint, 0) ==> Closed(RowsAt(at, 0), origin, cursor)
    ensures Fed(at, 0, mint, origin, cursor, [cursor], events)
  {
  }

  lemma FedAtResume(at: nat -> Database, mint: string, resume: Option<Cursor>)
    ensures Fed(at, 0, mint, resume, resume, [resume], [])
  {
    NothingBetween(RowsAt(at, 0), mint, resume);
    FedAtStart(at, mint, resume, resume, []);
  }

  lemma GaplessAtOpening(at: nat -> Database, mint: string, asked: Option<nat>, recent: seq<Event>, events: seq<Event>)
    requires History(at)
    requires
      recent == Tail(at(2), mint, Window(0, HorizonAt(at, mint, 0)), if Backlog(asked) < 1 then 1 else Backlog(asked))
    requires events == if Backlog(asked) > 0 then recent else []
    ensures Gapless(RowsAt(at, 0), mint, OriginOf(at, mint, None, asked), Advanced(None, recent), events)
  {
    assert GrowsAfter(at, 2);
    OpeningIsGapless(at(2), mint, Window(0, HorizonAt(at, mint, 0)), Backlog(asked), recent);
  }

  lemma FedAtOpening(at: nat -> Database, mint: string, asked: Option<nat>, recent: seq<Event>, events: seq<Event>)
    requires History(at)
    requires
      recent == Tail(at(2), mint, Window(0, HorizonAt(at, mint, 0)), if Backlog(asked) < 1 then 1 else Backlog(asked))
    requires events == if Backlog(asked) > 0 then recent else []
    ensures Fed(at, 0, mint, OriginOf(at, mint, None, asked), Advanced(None, recent), [Advanced(None, recent)], events)
  {
    var origin := OriginOf(at, mint, None, asked);
    GaplessAtOpening(at, mint, asked, recent, events);
    if AllSettled(at, mint, 0) {
      AllSettledBefore(at, mint, 0, 0);
      SettledTailCloses(at, mint, if Backlog(asked) < 1 then 1 else Backlog(asked), recent, origin);
    }
    FedAtStart(at, mint, origin, Advanced(None, recent), events);
  }

  lemma SettledTailCloses(at: nat -> Database, mint: string, limit: nat, recent: seq<Event>, origin: Option<Cursor>)
    requires History(at) && SettledAt(at, mint, 0)
    requires recent == Tail(at(2), mint, Window(0, HorizonAt(at, mint, 0)), limit)
    ensures Closed(RowsAt(at, 0), origin, Advanced(None, recent))
  {
    assert GrowsAfter(at, 1);
    var horizon := HorizonAt(at, mint, 0);
    TailIsLast(at(2), mint, Window(0, horizon), limit);
    if recent != [] {
      var e := recent[|recent| - 1];
      LastAreAmong(Rows(at(2), mint, Window(0, horizon)), limit, e);
      BehindStays(at(1), at(2), horizon, e.slot);
    }
  }

  /** The state of the feed after so many passes. */
  ghost predicate Feeding(at: nat -> Database, j: nat, mint: string, resume: Option<Cursor>, origin: Option<Cursor>,
                          sent: seq<Message>, cursor: Option<Cursor>, full: bool, events: seq<Event>,
                          stops: seq<Option<Cursor>>) {
    && sent == Messages(events) && Trail(events, mint, resume, cursor)
    && Fed(at, j, mint, origin, cursor, stops, events)
    && (j > 0 && !full ==> CaughtUp(RowsAt(at, j), mint, HorizonAt(at, mint, j), cursor))
    && (full ==> |sent| >= FEED_PAGE)
  }

  lemma FeedTurn(at: nat -> Database, j: nat, next: nat, mint: string, resume: Option<Cursor>, origin: Option<Cursor>,
                 sent: seq<Message>, cursor: Option<Cursor>, full: bool, events: seq<Event>, stops: seq<Option<Cursor>>,
                 page: seq<Event>)
    requires History(at) && next == j + 1
    requires Feeding(at, j, mint, resume, origin, sent, cursor, full, events, stops)
    requires page == Page(RowsAt(at, next), mint, Window(0, HorizonAt(at, mint, next)), cursor, FEED_PAGE)
    ensures Feeding(at, next, mint, resume, origin, sent + Messages(page), Advanced(cursor, page), |page| == FEED_PAGE,
                    events + page, stops + [Advanced(cursor, page)])
  {
    assert GrowsAfter(at, 3 * next + 2);
    PageIsAfter(RowsAt(at, next), mint, Window(0, HorizonAt(at, mint, next)), cursor, FEED_PAGE);
    TrailGoesOn(events, mint, resume, cursor, page);
    MessagesGoOn(events, page);
    FedOn(at, j, next, mint, origin, cursor, stops, events, page);
    if |page| < FEED_PAGE { ShortPageCatchesUp(RowsAt(at, next), mint, HorizonAt(at, mint, next), cursor, FEED_PAGE); }
  }

  lemma FeedOpens(at: nat -> Database, mint: string, asked: Option<nat>, recent: seq<Event>, events: seq<Event>)
    requires History(at)
    requires
      recent == Tail(at(2), mint, Window(0, HorizonAt(at, mint, 0)), if Backlog(asked) < 1 then 1 else Backlog(asked))
    requires events == if Backlog(asked) > 0 then recent else []
    ensures Feeding(at, 0, mint, None, OriginOf(at, mint, None, asked), Messages(events), Advanced(None, recent), false,
                    events, [Advanced(None, recent)])
  {
    assert GrowsAfter(at, 2);
    TailIsPage(at(2), mint, Window(0, HorizonAt(at, mint, 0)), if Backlog(asked) < 1 then 1 else Backlog(asked));
    TrailAtOpening(recent, mint, Backlog(asked) > 0);
    FedAtOpening(at, mint, asked, recent, events);
  }

  /** The reads of one pass: the window as far as the horizon of now, and a page of it. */
  method ReadPass(at: nat -> Database, j: nat, mint: string, cursor: Option<Cursor>) returns (page: seq<Event>)
    ensures page == Page(RowsAt(at, j), mint, Window(0, HorizonAt(at, mint, j)), cursor, FEED_PAGE)
  {
    var window := WindowFor(at(3 * j), at(3 * j + 1), at(3 * j + 1), mint, None, None);
    page := Page(RowsAt(at, j), mint, window, cursor, FEED_PAGE);
  }

  /** The reads of the opening: one query answers where to start, with a backlog and without. */
  method ReadOpening(at: nat -> Database, mint: string, backlog: nat) returns (recent: seq<Event>)
    ensures recent == Tail(at(2), mint, Window(0, HorizonAt(at, mint, 0)), if backlog < 1 then 1 else backlog)
  {
    var window := WindowFor(at(0), at(1), at(1), mint, None, None);
    recent := Tail(at(2), mint, window, if backlog < 1 then 1 else backlog);
  }

  /**
   * The feed until the connection closes after `passes` passes; the k-th read of the table sees
   * `at(k)`. The messages are rows of the mint past the resume point in strict order, none twice,
   * each with its own cursor. They are all the rows between where the feed began and where it
   * stands, as the last read finds them, whenever the cursor was closed at every stop; it is when
   * every horizon read was behind the indexer. After a pass with a page to spare nothing up to its
   * horizon is left to send.
   */
  method Feed(at: nat -> Database, mint: string, resume: Option<Cursor>, asked: Option<nat>, passes: nat)
    returns (sent: seq<Message>, cursor: Option<Cursor>, full: bool, ghost events: seq<Event>,
             ghost stops: seq<Option<Cursor>>)
    requires History(at)
    ensures sent == Messages(events) && Trail(events, mint, resume, cursor)
    ensures |stops| == passes + 1 && stops[passes] == cursor
    ensures
      var origin := OriginOf(at, mint, resume, asked);
      && (Unbroken(at, origin, stops) ==> Gapless(RowsAt(at, passes), mint, origin, cursor, events))
      && (AllSettled(at, mint, passes) ==> Unbroken(at, origin, stops))
    ensures passes > 0 && !full ==> CaughtUp(RowsAt(at, passes), mint, HorizonAt(at, mint, passes), cursor)
    ensures full ==> |sent| >= 200
  {
    var backlog := Backlog(asked);
    cursor, sent, full, events, stops := resume, [], false, [], [resume];
    ghost var origin := OriginOf(at, mint, resume, asked);
    if resume.None? {
      var recent := ReadOpening(at, mint, backlog);
      if backlog > 0 { sent, events := Messages(recent), recent; }
      FeedOpens(at, mint, asked, recent, events);
      cursor := Advanced(cursor, recent);
      stops := [cursor];
    } else {
      FedAtResume(at, mint, resume);
    }
    for turn := 0 to passes
      invariant Feeding(at, turn, mint, resume, origin, sent, cursor, full, events, stops)
    {
      var page := ReadPass(at, turn + 1, mint, cursor);
      FeedTurn(at, turn, turn + 1, mint, resume, origin, sent, cursor, full, events, stops, page);
      sent, events := sent + Messages(page), events + page;
      cursor := Advanced(cursor, page);
      stops := stops + [cursor];
      full := |page| == FEED_PAGE;
    }
  }

  /**
   * A client that kept the messages up to any one of them and resumes with its id misses nothing
   * and receives nothing twice, whatever happened in between, as long as that message's slot was
   * behind the indexer: what it kept and what a later connection sends from the id on is what one
   * connection would have sent.
   */
  lemma ResumeContinues(first: Database, later: Database, mint: string, origin: Option<Cursor>, e: Event,
                        end: Option<Cursor>)
    requires Grows(first, later) && e in first.table && e.mint == mint && IsPast(origin, e) && ':' !in e.signature
    requires Behind(first, e.slot) && Reaches(Some(CursorOf(e)), end)
    ensures ParseCursor(MessageOf(e).id) == Ok(CursorOf(e))
    ensures
      var resume := Some(CursorOf(e));
      Between(later, mint, origin, end) == Between(first, mint, origin, resume) + Between(later, mint, resume, end)
  {
    CursorRoundTrip(CursorOf(e));
    CursorsOrdered();
    assert Reaches(origin, Some(CursorOf(e)));
    BetweenFixed(first, later, mint, origin, Some(CursorOf(e)));
    BetweenJoins(later, mint, origin, Some(CursorOf(e)), end);
  }
}
