/** The mirror of events as the journal and the feed read it (apps/api/src/journal.ts). */
module JournalStore {
  import opened Common
  import opened Ordering
  import opened Decimal
  import opened Events

  // ─── The cursor as text ────────────────────────────────────────────────────

  function FormatCursor(c: Cursor): string {
    Join([Text(c.slot), c.signature, Text(c.eventIndex)], ':')
  }

  datatype CursorError = NotThreeParts | NotNumbers

  function ParseCursor(value: string): Result<Cursor, CursorError> {
    var parts := Split(value, ':');
    if |parts| != 3 then Err(NotThreeParts)
    else if !AllDigits(parts[0]) || !AllDigits(parts[2]) then Err(NotNumbers)
    else Ok(Cursor(Number(parts[0]), parts[1], Number(parts[2])))
  }

  lemma {:induction false} SplitHasEveryColon(s: string, t: string)
    ensures |Split(s + ":" + t, ':')| == |Split(s, ':')| + |Split(t, ':')|
  {
    var all := s + ":" + t;
    if s == "" {
      assert all[1..] == t;
    } else {
      assert all[1..] == s[1..] + ":" + t && all[0] == s[0];
      SplitHasEveryColon(s[1..], t);
    }
  }

  lemma {:induction false} ColonSplits(s: string)
    ensures |Split(s, ':')| == 1 <==> ':' !in s
  {
    if s != "" {
      assert s == [s[0]] + s[1..];
      ColonSplits(s[1..]);
    }
  }

  /** A cursor written and read back is the same cursor exactly when its signature holds no colon. */
  lemma CursorRoundTrip(c: Cursor)
    ensures ParseCursor(FormatCursor(c)) == Ok(c) <==> ':' !in c.signature
  {
    var slot, index := Text(c.slot), Text(c.eventIndex);
    NumberOfText(c.slot);
    NumberOfText(c.eventIndex);
    assert FormatCursor(c) == slot + [':'] + (c.signature + [':'] + index) by {
      assert Join([c.signature, index], ':') == c.signature + [':'] + index;
      assert [slot, c.signature, index][1..] == [c.signature, index];
    }
    SplitFirst(slot, c.signature + [':'] + index, ':');
    SplitWhole(index, ':');
    ColonSplits(c.signature);
    assert [':'] == ":";
    SplitHasEveryColon(c.signature, index);
    if ':' !in c.signature { SplitFirst(c.signature, index, ':'); }
  }

  /** Whatever text is accepted as a cursor, leading zeros included, the cursor it means survives being written and read again. */
  lemma AcceptedCursor(value: string)
    requires ParseCursor(value).Ok?
    ensures ParseCursor(FormatCursor(ParseCursor(value).value)) == ParseCursor(value)
    ensures var c := ParseCursor(value).value;
            Canonical(Split(value, ':')[0]) && Canonical(Split(value, ':')[2]) ==> FormatCursor(c) == value
  {
    var parts := Split(value, ':');
    JoinSplit(value, ':');
    CursorRoundTrip(ParseCursor(value).value);
    if Canonical(parts[0]) && Canonical(parts[2]) {
      TextOfNumber(parts[0]);
      TextOfNumber(parts[2]);
      assert parts == [parts[0], parts[1], parts[2]];
    }
  }

  // ─── The table and the frontier ────────────────────────────────────────────

  /** The rows in the order of the index, and the slot of the indexer's cursor, if it ever ran. */
  datatype Database = Database(table: seq<Event>, cursor: Option<nat>)

  datatype Frontier = Frontier(indexedThroughSlot: nat, horizonSlot: nat)

  /** Inclusive; empty when `fromSlot > toSlot`. */
  datatype Window = Window(fromSlot: nat, toSlot: nat)

  predicate IsEmpty(w: Window) { w.fromSlot > w.toSlot }

  function OfMint(mint: string): Event -> bool { (e: Event) => e.mint == mint }

  function InWindow(mint: string, w: Window): Event -> bool {
    (e: Event) => e.mint == mint && w.fromSlot <= e.slot <= w.toSlot
  }

  function LastSlot(rows: seq<Event>): Option<nat> {
    if rows == [] then None else Some(rows[|rows| - 1].slot)
  }

  function FirstSlot(rows: seq<Event>): Option<nat> {
    if rows == [] then None else Some(rows[0].slot)
  }

  /** Two queries: the cursor as `first` has it, and without one the newest row of the mint as `second` has it. */
  function FrontierOf(first: Database, second: Database, mint: string): Frontier {
    match first.cursor
    case Some(slot) => Frontier(slot, Max(0, slot - 1))
    case None =>
      var top := LastSlot(Filter(second.table, OfMint(mint)));
      var slot := if top.Some? then top.value else 0;
      Frontier(slot, slot)
  }

  function HorizonOf(first: Database, second: Database, mint: string): nat {
    FrontierOf(first, second, mint).horizonSlot
  }

  datatype TimeBracket = TimeBracket(fromSlot: Option<nat>, toSlot: Option<nat>)

  function AtOrAfter(mint: string, unix: int): Event -> bool {
    (e: Event) => e.mint == mint && e.blockTime.Some? && e.blockTime.value >= unix
  }

  function AtOrBefore(mint: string, unix: int): Event -> bool {
    (e: Event) => e.mint == mint && e.blockTime.Some? && e.blockTime.value <= unix
  }

  const NO_LOWER_BOUND := 0
  const NO_UPPER_BOUND := 0x1F_FFFF_FFFF_FFFF

  function Bracket(db: Database, mint: string, from: Option<int>, to: Option<int>): TimeBracket {
    TimeBracket(
      FirstSlot(Filter(db.table, AtOrAfter(mint, if from.Some? then from.value else NO_LOWER_BOUND))),
      LastSlot(Filter(db.table, AtOrBefore(mint, if to.Some? then to.value else NO_UPPER_BOUND))))
  }

  // ─── The window of a request ───────────────────────────────────────────────

  datatype Bound = AtSlot(slot: nat) | AtTime(unix: int)

  /** Where a bound puts its edge of the window; nowhere when an instant has no row on its side. */
  function EdgeSlot(bound: Option<Bound>, bracketed: Option<nat>, fallback: nat): Option<nat> {
    if bound.None? then Some(fallback)
    else if bound.value.AtSlot? then Some(bound.value.slot)
    else bracketed
  }

  function ResolveWindow(from: Option<Bound>, to: Option<Bound>, bracket: TimeBracket, frontier: Frontier): Window {
    var horizon := frontier.horizonSlot;
    var lower := EdgeSlot(from, bracket.fromSlot, 0);
    var upper := EdgeSlot(to, bracket.toSlot, horizon);
    if lower.None? || upper.None? then Window(horizon + 1, horizon)
    else Window(lower.value, Min(upper.value, horizon))
  }

  function Instant(bound: Option<Bound>): Option<int> {
    if bound.Some? && bound.value.AtTime? then Some(bound.value.unix) else None
  }

  /** The frontier is read from `first` and `second`; the bracket, if a bound needs one, from `third`. */
  function WindowFor(first: Database, second: Database, third: Database, mint: string, from: Option<Bound>, to: Option<Bound>)
    : Window
  {
    var bracket := if Instant(from).Some? || Instant(to).Some? then Bracket(third, mint, Instant(from), Instant(to))
                   else TimeBracket(None, None);
    ResolveWindow(from, to, bracket, FrontierOf(first, second, mint))
  }

  // ─── Reading rows ──────────────────────────────────────────────────────────

  function Last<T>(s: seq<T>, limit: nat): seq<T> { if |s| <= limit then s else s[|s| - limit..] }

  /** The rows of a window, in order. */
  function Rows(db: Database, mint: string, w: Window): (r: seq<Event>)
    ensures forall e :: e in r <==> e in db.table && e.mint == mint && w.fromSlot <= e.slot <= w.toSlot
  {
    Filter(db.table, InWindow(mint, w))
  }

  predicate IsPast(after: Option<Cursor>, e: Event) {
    after.None? || CursorLess(after.value, CursorOf(e))
  }

  function InWindowPast(mint: string, w: Window, after: Option<Cursor>): Event -> bool {
    (e: Event) => e.mint == mint && w.fromSlot <= e.slot <= w.toSlot && IsPast(after, e)
  }

  /** The rows of a window past a cursor. */
  function RowsPast(db: Database, mint: string, w: Window, after: Option<Cursor>): (r: seq<Event>)
    ensures forall e :: e in r <==>
              e in db.table && e.mint == mint && w.fromSlot <= e.slot <= w.toSlot && IsPast(after, e)
  {
    Filter(db.table, InWindowPast(mint, w, after))
  }

  function Count(db: Database, mint: string, w: Window): nat {
    if IsEmpty(w) then 0 else |Rows(db, mint, w)|
  }

  function Page(db: Database, mint: string, w: Window, after: Option<Cursor>, limit: nat): seq<Event> {
    if IsEmpty(w) then [] else First(RowsPast(db, mint, w, after), limit)
  }

  function Tail(db: Database, mint: string, w: Window, limit: nat): seq<Event> {
    if IsEmpty(w) then [] else Last(Rows(db, mint, w), limit)
  }

  /** The cursor after the first `n` of the rows past `start`. */
  function CursorAt(start: Option<Cursor>, rows: seq<Event>, n: nat): Option<Cursor>
    requires n <= |rows|
  {
    if n == 0 then start else Some(CursorOf(rows[n - 1]))
  }

  ghost predicate Ordered(db: Database) { Ascending(db.table, Less) }

  lemma RowsPastAscending(db: Database, mint: string, w: Window, start: Option<Cursor>)
    requires Ordered(db)
    ensures Ascending(RowsPast(db, mint, w, start), Less)
  {
    FilterAscending(db.table, InWindowPast(mint, w, start), Less);
  }

  lemma RowsInsideWindow(db: Database, mint: string, w: Window, start: Option<Cursor>)
    ensures RowsPast(db, mint, w, start) != [] ==> !IsEmpty(w)
  {
    var rows := RowsPast(db, mint, w, start);
    if rows != [] { assert rows[0] in rows; }
  }

  lemma NextIsRest(db: Database, mint: string, w: Window, start: Option<Cursor>, n: nat)
    requires Ordered(db) && n <= |RowsPast(db, mint, w, start)|
    ensures
      var rows := RowsPast(db, mint, w, start);
      forall e :: e in RowsPast(db, mint, w, CursorAt(start, rows, n)) <==> e in rows[n..]
  {
    var rows := RowsPast(db, mint, w, start);
    RowsPastAscending(db, mint, w, start);
    LessIsOrder();
    CursorsOrdered();
    forall k | 0 <= k < |rows| ensures IsPast(CursorAt(start, rows, n), rows[k]) <==> n <= k {
      assert rows[k] in rows;
      if k < n - 1 { assert Less(rows[k], rows[n - 1]); }
    }
    assert n > 0 ==> rows[n - 1] in rows;
  }

  /** Wherever the walk stands, the next page is the next `limit` of the rows it started for. */
  lemma PageIsNext(db: Database, mint: string, w: Window, start: Option<Cursor>, n: nat, limit: nat)
    requires Ordered(db) && n <= |RowsPast(db, mint, w, start)|
    ensures
      var rows := RowsPast(db, mint, w, start);
      Page(db, mint, w, CursorAt(start, rows, n), limit) == First(rows[n..], limit)
  {
    var rows := RowsPast(db, mint, w, start);
    var cursor := CursorAt(start, rows, n);
    var next := RowsPast(db, mint, w, cursor);
    if IsEmpty(w) {
      RowsInsideWindow(db, mint, w, start);
    } else {
      LessIsOrder();
      RowsPastAscending(db, mint, w, start);
      RowsPastAscending(db, mint, w, cursor);
      NextIsRest(db, mint, w, start, n);
      AscendingUnique(next, rows[n..], Less);
    }
  }

  lemma RowsPastNothing(db: Database, mint: string, w: Window)
    requires Ordered(db)
    ensures RowsPast(db, mint, w, None) == Rows(db, mint, w)
  {
    LessIsOrder();
    FiltersAgree(db.table, db.table, InWindowPast(mint, w, None), InWindow(mint, w), Less);
  }

  // ─── The table under a running indexer ─────────────────────────────────────

  /**
   * `b` is a later state: rows are only added, none below the cursor and none below a row that is
   * there already, and the cursor only advances.
   */
  ghost predicate Grows(a: Database, b: Database) {
    && Ordered(a) && Ordered(b)
    && (forall e :: e in a.table ==> e in b.table)
    && (forall e :: e in b.table && e !in a.table ==> IsLate(a, e))
    && (a.cursor.Some? ==> b.cursor.Some? && a.cursor.value <= b.cursor.value)
  }

  ghost predicate IsLate(db: Database, e: Event) {
    (db.cursor.Some? ==> db.cursor.value <= e.slot) && forall row :: row in db.table ==> row.slot <= e.slot
  }

  /** The indexer is past this slot: its stored cursor says so, or a row does. */
  predicate Behind(db: Database, slot: nat) {
    (db.cursor.Some? && db.cursor.value > slot) || exists row :: row in db.table && row.slot > slot
  }

  lemma BehindStays(a: Database, b: Database, slot: nat, lower: nat)
    requires Grows(a, b) && Behind(a, slot) && lower <= slot
    ensures Behind(b, lower)
  {
  }

  /** The indexer has a cursor, past slot zero. */
  predicate Steady(db: Database) { db.cursor.Some? && db.cursor.value >= 1 }

  /** With such a cursor the horizon is behind the indexer from the first read on. */
  lemma SteadyIsSettled(first: Database, second: Database, mint: string)
    requires Grows(first, second) && Steady(first)
    ensures Behind(first, HorizonOf(first, second, mint)) && Behind(second, HorizonOf(first, second, mint))
  {
  }

  /** Rows at or below a slot behind the indexer are final. */
  lemma RowsFixed(a: Database, b: Database, mint: string, w: Window, start: Option<Cursor>)
    requires Grows(a, b) && Behind(a, w.toSlot)
    ensures RowsPast(b, mint, w, start) == RowsPast(a, mint, w, start)
  {
    LessIsOrder();
    var p := InWindowPast(mint, w, start);
    forall e ensures e in a.table && p(e) <==> e in b.table && p(e) {
      if e in b.table && e !in a.table { assert IsLate(a, e); }
    }
    FiltersAgree(a.table, b.table, p, p, Less);
  }

  function SignaturesOf(rows: seq<Event>): (r: seq<string>)
    ensures |r| == |rows|
    ensures forall row :: row in rows ==> row.signature in r
  {
    var r := seq(|rows|, i requires 0 <= i < |rows| => rows[i].signature);
    assert forall i :: 0 <= i < |rows| ==> r[i] == rows[i].signature && r[i] in r;
    r
  }

  const SAMPLE_BODY := StatusChange("w", "a", HolderStatus(1, "DE", false, None))

  /** An event of the mint at this slot, in a transaction of none of these signatures, right behind one. */
  function NewEvent(name: string, names: seq<string>, mint: string, slot: nat): Event {
    Event(FreshAfter(name, names), slot, None, 0, mint, SAMPLE_BODY)
  }

  function WithRow(db: Database, e: Event): Database { Database(Insert(e, db.table, Less), db.cursor) }

  /** A slot the indexer is not past may yet gain a row. */
  lemma NewEventIsRead(db: Database, mint: string, slot: nat, name: string, names: seq<string>)
    requires Ordered(db) && !Behind(db, slot) && forall row :: row in db.table ==> row.signature in names
    ensures
      var e := NewEvent(name, names, mint, slot);
      var later := WithRow(db, e);
      && Grows(db, later) && e !in db.table && (forall row :: row in later.table <==> row in db.table || row == e)
      && Rows(later, mint, Window(0, slot)) != Rows(db, mint, Window(0, slot))
  {
    var e := NewEvent(name, names, mint, slot);
    LessIsOrder();
    CursorsOrdered();
    InsertMembers(e, db.table, Less);
    InsertAscending(e, db.table, Less);
    assert e in Rows(WithRow(db, e), mint, Window(0, slot));
  }

  ghost predicate SameUpTo(a: Database, b: Database, mint: string, slot: nat) {
    Rows(b, mint, Window(0, slot)) == Rows(a, mint, Window(0, slot))
  }

  /** The rows up to a slot are final, however the table grows, exactly when the slot is behind the indexer. */
  lemma SlotFinalExactly(a: Database, mint: string, slot: nat)
    requires Ordered(a)
    ensures (forall b :: Grows(a, b) ==> SameUpTo(a, b, mint, slot)) <==> Behind(a, slot)
  {
    if Behind(a, slot) {
      forall b | Grows(a, b) ensures SameUpTo(a, b, mint, slot) {
        RowsFixed(a, b, mint, Window(0, slot), None);
        RowsPastNothing(a, mint, Window(0, slot));
        RowsPastNothing(b, mint, Window(0, slot));
      }
    } else {
      NewEventIsRead(a, mint, slot, "", SignaturesOf(a.table));
      var b := WithRow(a, NewEvent("", SignaturesOf(a.table), mint, slot));
      assert Grows(a, b) && !SameUpTo(a, b, mint, slot);
    }
  }

  /**
   * The rows up to the horizon are final from the second read of the frontier on, however the table
   * grows, exactly when the cursor was past slot zero at the first read, or at the second one the
   * stored cursor or some row of the table is past the horizon.
   */
  lemma HorizonFinalExactly(first: Database, second: Database, mint: string)
    requires Grows(first, second)
    ensures
      var h := HorizonOf(first, second, mint);
      (forall b :: Grows(second, b) ==> SameUpTo(second, b, mint, h)) <==>
      Steady(first) || (second.cursor.Some? && second.cursor.value > h)
      || exists row :: row in second.table && row.slot > h
  {
    SlotFinalExactly(second, mint, HorizonOf(first, second, mint));
    if Steady(first) { SteadyIsSettled(first, second, mint); }
  }

  /**
   * The horizon of a stored cursor is the last slot that cursor alone makes final: a slot is within
   * it exactly when the rows up to the slot stay what they are in every table with that cursor,
   * however it grows.
   */
  lemma HorizonIsLastFinal(t: seq<Event>, c: nat, second: Database, mint: string, slot: nat)
    requires c >= 1
    ensures
      slot <= HorizonOf(Database(t, Some(c)), second, mint) <==>
      forall a: Database, b: Database :: a.cursor == Some(c) && Grows(a, b) ==> SameUpTo(a, b, mint, slot)
  {
    if slot < c {
      forall a: Database, b: Database | a.cursor == Some(c) && Grows(a, b) ensures SameUpTo(a, b, mint, slot) {
        SlotFinalExactly(a, mint, slot);
      }
    } else {
      var a := Database([], Some(c));
      SlotFinalExactly(a, mint, slot);
      var b :| Grows(a, b) && !SameUpTo(a, b, mint, slot);
    }
  }

  /** Without a cursor the horizon is the last slot of a row of the mint, or zero when it has none. */
  lemma HorizonIsLastRow(first: Database, second: Database, mint: string)
    requires first.cursor.None? && Ordered(second)
    ensures
      var h := HorizonOf(first, second, mint);
      && (forall e :: e in second.table && e.mint == mint ==> e.slot <= h)
      && (h == 0 || exists e :: e in second.table && e.mint == mint && e.slot == h)
  {
    var rows := Filter(second.table, OfMint(mint));
    FilterAscending(second.table, OfMint(mint), Less);
    if rows != [] { assert rows[|rows| - 1] in rows; }
    forall e | e in second.table && e.mint == mint ensures e.slot <= HorizonOf(first, second, mint) {
      FirstIsLowest(rows, e);
    }
  }

  /** What is said to be indexed is the stored cursor itself, and never less than the horizon. */
  lemma IndexedThrough(first: Database, second: Database, mint: string)
    ensures
      var frontier := FrontierOf(first, second, mint);
      && (first.cursor.Some? ==> frontier.indexedThroughSlot == first.cursor.value)
      && (first.cursor.None? || first.cursor.value == 0 ==> frontier.indexedThroughSlot == frontier.horizonSlot)
      && frontier.horizonSlot <= frontier.indexedThroughSlot
  {
  }

  function SlotsUpTo(slot: nat): Event -> bool { (e: Event) => e.slot <= slot }

  function SlotsPast(slot: nat): Event -> bool { (e: Event) => e.slot > slot }

  lemma {:induction false} SplitBySlot(rows: seq<Event>, slot: nat)
    requires Ascending(rows, Less)
    ensures rows == Filter(rows, SlotsUpTo(slot)) + Filter(rows, SlotsPast(slot))
  {
    if rows != [] {
      SplitBySlot(rows[1..], slot);
      if rows[0].slot > slot {
        var early := Filter(rows[1..], SlotsUpTo(slot));
        forall e | e in rows[1..] ensures e.slot > slot {
          var k :| 0 <= k < |rows[1..]| && rows[1..][k] == e;
          assert Less(rows[0], rows[k + 1]);
        }
      }
    }
  }

  lemma EarlyIsBelow(a: Database, b: Database, mint: string, start: Option<Cursor>, slot: nat, upTo: nat)
    requires Grows(a, b) && Behind(a, slot) && slot <= upTo
    ensures forall e :: e in RowsPast(a, mint, Window(0, slot), start) <==>
              e in Filter(RowsPast(b, mint, Window(0, upTo), start), SlotsUpTo(slot))
  {
    forall e | e in b.table && e !in a.table ensures e.slot > slot { assert IsLate(a, e); }
  }

  /** The rows up to a slot behind the indexer stay at the front of those up to any later slot. */
  lemma ReadableExtends(a: Database, b: Database, mint: string, start: Option<Cursor>, slot: nat, upTo: nat)
    requires Grows(a, b) && Behind(a, slot) && slot <= upTo
    ensures RowsPast(a, mint, Window(0, slot), start) <= RowsPast(b, mint, Window(0, upTo), start)
  {
    var early := RowsPast(a, mint, Window(0, slot), start);
    var all := RowsPast(b, mint, Window(0, upTo), start);
    RowsPastAscending(a, mint, Window(0, slot), start);
    RowsPastAscending(b, mint, Window(0, upTo), start);
    SplitBySlot(all, slot);
    FilterAscending(all, SlotsUpTo(slot), Less);
    LessIsOrder();
    EarlyIsBelow(a, b, mint, start, slot, upTo);
    AscendingUnique(early, Filter(all, SlotsUpTo(slot)), Less);
  }

  // ─── The rows between two cursors ──────────────────────────────────────────

  function BetweenCursors(mint: string, start: Option<Cursor>, end: Option<Cursor>): Event -> bool {
    (e: Event) => e.mint == mint && IsPast(start, e) && !IsPast(end, e)
  }

  /** The rows past one cursor and not past the other. */
  function Between(db: Database, mint: string, start: Option<Cursor>, end: Option<Cursor>): (r: seq<Event>)
    ensures forall e :: e in r <==> e in db.table && e.mint == mint && IsPast(start, e) && !IsPast(end, e)
  {
    Filter(db.table, BetweenCursors(mint, start, end))
  }

  lemma BetweenAscending(db: Database, mint: string, start: Option<Cursor>, end: Option<Cursor>)
    requires Ordered(db)
    ensures Ascending(Between(db, mint, start, end), Less)
  {
    FilterAscending(db.table, BetweenCursors(mint, start, end), Less);
  }

  /** No row can arrive behind the cursor: nothing is behind it but what is left out anyway, or its slot is behind the indexer. */
  predicate Closed(db: Database, start: Option<Cursor>, end: Option<Cursor>) {
    end == start || end.None? || Behind(db, end.value.slot)
  }

  /** What lies between two cursors is final once the later one is closed. */
  lemma BetweenFixed(a: Database, b: Database, mint: string, start: Option<Cursor>, end: Option<Cursor>)
    requires Grows(a, b) && Closed(a, start, end)
    ensures Between(b, mint, start, end) == Between(a, mint, start, end)
  {
    LessIsOrder();
    var p := BetweenCursors(mint, start, end);
    forall e ensures e in a.table && p(e) <==> e in b.table && p(e) {
      if e in b.table && e !in a.table { assert IsLate(a, e); }
    }
    FiltersAgree(a.table, b.table, p, p, Less);
  }

  ghost predicate Reaches(start: Option<Cursor>, end: Option<Cursor>) {
    forall e :: IsPast(end, e) ==> IsPast(start, e)
  }

  lemma Ends(start: Option<Cursor>, middle: Option<Cursor>, end: Option<Cursor>)
    requires Reaches(start, middle) && Reaches(middle, end)
    ensures Reaches(start, end)
  {
  }

  /** Two pieces that meet make one. */
  lemma BetweenJoins(db: Database, mint: string, start: Option<Cursor>, middle: Option<Cursor>, end: Option<Cursor>)
    requires Ordered(db) && Reaches(start, middle) && Reaches(middle, end)
    ensures Between(db, mint, start, end) == Between(db, mint, start, middle) + Between(db, mint, middle, end)
  {
    var left, right := Between(db, mint, start, middle), Between(db, mint, middle, end);
    BetweenAscending(db, mint, start, middle);
    BetweenAscending(db, mint, middle, end);
    BetweenAscending(db, mint, start, end);
    LessIsOrder();
    CursorsOrdered();
    forall e, f | e in left && f in right ensures Less(e, f) { assert !IsPast(middle, e) && IsPast(middle, f); }
    var both := left + right;
    forall i, j | 0 <= i < j < |both| ensures Less(both[i], both[j]) {
      if i < |left| <= j { assert both[i] in left && both[j] in right; }
    }
    AscendingUnique(Between(db, mint, start, end), both, Less);
  }

  lemma GrowsTransitive(a: Database, b: Database, c: Database)
    requires Grows(a, b) && Grows(b, c)
    ensures Grows(a, c)
  {
    forall e | e in c.table && e !in a.table ensures IsLate(a, e) {
      if e in b.table { assert IsLate(a, e); } else { assert IsLate(b, e); }
    }
  }

  ghost predicate GrowsAfter(at: nat -> Database, k: nat) { Grows(at(k), at(k + 1)) }

  /** One state of the table for every read of it. */
  ghost predicate History(at: nat -> Database) {
    forall k: nat :: GrowsAfter(at, k)
  }

  lemma {:induction false} HistoryGrows(at: nat -> Database, i: nat, j: nat)
    requires History(at) && i <= j
    ensures Grows(at(i), at(j))
    decreases j - i
  {
    assert GrowsAfter(at, i);
    if i < j {
      HistoryGrows(at, i + 1, j);
      GrowsTransitive(at(i), at(i + 1), at(j));
    }
  }

  // ─── Periods asked for by time ─────────────────────────────────────────────

  predicate Covered(bound: Option<Bound>, e: Event, isFrom: bool) {
    match bound
    case None => true
    case Some(AtSlot(slot)) => if isFrom then slot <= e.slot else e.slot <= slot
    case Some(AtTime(unix)) =>
      e.blockTime.Some? && if isFrom then unix <= e.blockTime.value else e.blockTime.value <= unix
  }

  lemma FirstIsLowest(rows: seq<Event>, e: Event)
    requires Ascending(rows, Less) && e in rows
    ensures FirstSlot(rows).Some? && FirstSlot(rows).value <= e.slot <= LastSlot(rows).value
  {
    var k :| 0 <= k < |rows| && rows[k] == e;
  }

  /**
   * No row that both bounds cover and that lies within the horizon is left out of the window,
   * whatever happened to the table between the reads.
   */
  lemma WindowLosesNothing(first: Database, second: Database, third: Database, mint: string, from: Option<Bound>,
                           to: Option<Bound>, e: Event)
    requires Ordered(third) && e in third.table && e.mint == mint
    requires e.slot <= HorizonOf(first, second, mint)
    requires Covered(from, e, true) && Covered(to, e, false)
    ensures InWindow(mint, WindowFor(first, second, third, mint, from, to))(e)
  {
    if Instant(from).Some? { BracketFrom(third, mint, Instant(from), Instant(to), e); }
    if Instant(to).Some? { BracketTo(third, mint, Instant(from), Instant(to), e); }
    var bracket := if Instant(from).Some? || Instant(to).Some? then Bracket(third, mint, Instant(from), Instant(to))
                   else TimeBracket(None, None);
    ResolvedCovers(from, to, bracket, FrontierOf(first, second, mint), e);
  }

  lemma ResolvedCovers(from: Option<Bound>, to: Option<Bound>, bracket: TimeBracket, frontier: Frontier, e: Event)
    requires e.slot <= frontier.horizonSlot && Covered(from, e, true) && Covered(to, e, false)
    requires Instant(from).Some? ==> bracket.fromSlot.Some? && bracket.fromSlot.value <= e.slot
    requires Instant(to).Some? ==> bracket.toSlot.Some? && e.slot <= bracket.toSlot.value
    ensures var w := ResolveWindow(from, to, bracket, frontier); w.fromSlot <= e.slot <= w.toSlot
  {
  }

  lemma BracketFrom(db: Database, mint: string, from: Option<int>, to: Option<int>, e: Event)
    requires Ordered(db) && e in db.table && from.Some? && AtOrAfter(mint, from.value)(e)
    ensures var bracket := Bracket(db, mint, from, to); bracket.fromSlot.Some? && bracket.fromSlot.value <= e.slot
  {
    FilterAscending(db.table, AtOrAfter(mint, from.value), Less);
    FirstIsLowest(Filter(db.table, AtOrAfter(mint, from.value)), e);
  }

  lemma BracketTo(db: Database, mint: string, from: Option<int>, to: Option<int>, e: Event)
    requires Ordered(db) && e in db.table && to.Some? && AtOrBefore(mint, to.value)(e)
    ensures var bracket := Bracket(db, mint, from, to); bracket.toSlot.Some? && e.slot <= bracket.toSlot.value
  {
    FilterAscending(db.table, AtOrBefore(mint, to.value), Less);
    FirstIsLowest(Filter(db.table, AtOrBefore(mint, to.value)), e);
  }

  /** The lower edge a bound asks for: the slot itself, the first slot of a row at or after the instant, or zero. */
  ghost predicate LowEdge(db: Database, mint: string, from: Option<Bound>, slot: nat) {
    match from
    case None => slot == 0
    case Some(AtSlot(asked)) => slot == asked
    case Some(AtTime(unix)) =>
      && (exists e :: e in db.table && AtOrAfter(mint, unix)(e) && e.slot == slot)
      && forall e :: e in db.table && AtOrAfter(mint, unix)(e) ==> slot <= e.slot
  }

  /** The upper edge a bound asks for: the slot itself, the last slot of a row at or before the instant, or the horizon. */
  ghost predicate HighEdge(db: Database, mint: string, to: Option<Bound>, horizon: nat, slot: nat) {
    match to
    case None => slot == horizon
    case Some(AtSlot(asked)) => slot == asked
    case Some(AtTime(unix)) =>
      && (exists e :: e in db.table && AtOrBefore(mint, unix)(e) && e.slot == slot)
      && forall e :: e in db.table && AtOrBefore(mint, unix)(e) ==> e.slot <= slot
  }

  lemma LowEdgeOf(first: Database, second: Database, third: Database, mint: string, from: Option<Bound>, to: Option<Bound>)
    requires Ordered(third)
    ensures
      var edge := EdgeSlot(from, Bracket(third, mint, Instant(from), Instant(to)).fromSlot, 0);
      if edge.Some? then LowEdge(third, mint, from, edge.value) else forall slot: nat :: !LowEdge(third, mint, from, slot)
  {
    if Instant(from).Some? {
      var p := AtOrAfter(mint, from.value.unix);
      var rows := Filter(third.table, p);
      FilterAscending(third.table, p, Less);
      if rows != [] { assert rows[0] in rows; }
      forall e | e in third.table && p(e) ensures rows != [] && rows[0].slot <= e.slot { FirstIsLowest(rows, e); }
    }
  }

  lemma HighEdgeOf(first: Database, second: Database, third: Database, mint: string, from: Option<Bound>, to: Option<Bound>)
    requires Ordered(third)
    ensures
      var horizon := HorizonOf(first, second, mint);
      var edge := EdgeSlot(to, Bracket(third, mint, Instant(from), Instant(to)).toSlot, horizon);
      if edge.Some? then HighEdge(third, mint, to, horizon, edge.value)
      else forall slot: nat :: !HighEdge(third, mint, to, horizon, slot)
  {
    if Instant(to).Some? {
      var p := AtOrBefore(mint, to.value.unix);
      var rows := Filter(third.table, p);
      FilterAscending(third.table, p, Less);
      if rows != [] { assert rows[|rows| - 1] in rows; }
      forall e | e in third.table && p(e) ensures rows != [] && e.slot <= rows[|rows| - 1].slot { FirstIsLowest(rows, e); }
    }
  }

  /**
   * The window is exactly what was asked for within the horizon: from the lower edge to the upper
   * edge or the horizon, whichever comes first, and empty when an instant has no row on its side.
   */
  lemma WindowIsTight(first: Database, second: Database, third: Database, mint: string, from: Option<Bound>,
                      to: Option<Bound>)
    requires Ordered(third)
    ensures
      var w := WindowFor(first, second, third, mint, from, to);
      var horizon := HorizonOf(first, second, mint);
      && w.toSlot <= horizon
      && (forall low: nat, high: nat :: LowEdge(third, mint, from, low) && HighEdge(third, mint, to, horizon, high) ==>
            w == Window(low, Min(high, horizon)))
      && ((forall low: nat :: !LowEdge(third, mint, from, low)) || (forall high: nat :: !HighEdge(third, mint, to, horizon, high)) ==>
            w == Window(horizon + 1, horizon))
  {
    LowEdgeOf(first, second, third, mint, from, to);
    HighEdgeOf(first, second, third, mint, from, to);
  }

  /** Without bounds the window is what the stored cursor has made final: exactly the slots before it. */
  lemma WithoutBounds(first: Database, second: Database, third: Database, mint: string, e: Event)
    requires first.cursor.Some? && first.cursor.value >= 1
    ensures InWindow(mint, WindowFor(first, second, third, mint, None, None))(e) <==>
            e.mint == mint && e.slot < first.cursor.value
  {
  }
}
