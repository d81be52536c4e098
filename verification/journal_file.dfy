/** What a journal file shows on its own (tools/verify-journal/src/file.ts). */
module JournalFile {
  import opened Common
  import opened Ordering
  import opened Events
  import opened JournalFormat

  /** An event and the line it sat on, counted from one. */
  datatype Entry = Entry(line: nat, event: Event)

  datatype Problem =
    | NotJsonAt(line: nat)
    | NotALineAt(line: nat)
    | ManifestAt(line: nat)
    | NoManifest
    | WrongCount(claimed: nat, held: nat)
    | PastIndexed
    | OtherMint(line: nat)
    | OutsideWindow(line: nat)
    | Twice(line: nat)
    | OutOfOrder(line: nat)
    | OtherProgram
    | NotAToken
    | OtherIssuer
    | NotFinalized

  datatype File = File(manifest: Option<Manifest>, entries: seq<Entry>, problems: seq<Problem>)

  // ─── What is wrong with a file ─────────────────────────────────────────────

  function LineProblem(line: Line, number: nat): seq<Problem> {
    match line
    case NotJson => [NotJsonAt(number)]
    case NotALine => [NotALineAt(number)]
    case ManifestLine(_) => if number == 1 then [] else [ManifestAt(number)]
    case EventLine(_) => []
  }

  function LineProblems(lines: seq<Line>): seq<Problem> {
    if lines == [] then []
    else LineProblems(lines[..|lines| - 1]) + LineProblem(lines[|lines| - 1], |lines|)
  }

  function EntryOf(line: Line, number: nat): seq<Entry> {
    if line.EventLine? then [Entry(number, line.event)] else []
  }

  function EntriesOf(lines: seq<Line>): seq<Entry> {
    if lines == [] then []
    else EntriesOf(lines[..|lines| - 1]) + EntryOf(lines[|lines| - 1], |lines|)
  }

  function ManifestOf(lines: seq<Line>): Option<Manifest> {
    if lines != [] && lines[0].ManifestLine? then Some(lines[0].manifest) else None
  }

  predicate KeyAmong(entries: seq<Entry>, key: string) {
    exists i :: 0 <= i < |entries| && KeyOf(entries[i].event) == key
  }

  function If(condition: bool, problem: Problem): seq<Problem> { if condition then [problem] else [] }

  /** What is wrong with one entry, given those before it. */
  function EntryProblem(m: Manifest, earlier: seq<Entry>, entry: Entry): seq<Problem> {
    var Entry(line, e) := entry;
    If(e.mint != m.mint, OtherMint(line))
    + If(e.slot < m.fromSlot || e.slot > m.toSlot, OutsideWindow(line))
    + If(KeyAmong(earlier, KeyOf(e)), Twice(line))
    + If(earlier != [] && Compare(earlier[|earlier| - 1].event, e) > 0, OutOfOrder(line))
  }

  function EntryProblems(m: Manifest, entries: seq<Entry>): seq<Problem> {
    if entries == [] then []
    else
      var earlier := entries[..|entries| - 1];
      EntryProblems(m, earlier) + EntryProblem(m, earlier, entries[|entries| - 1])
  }

  /** What is wrong with the manifest's own claims. */
  function ClaimProblems(m: Manifest, held: nat): seq<Problem> {
    If(m.count != held, WrongCount(m.count, held)) + If(m.toSlot > m.indexedThroughSlot, PastIndexed)
  }

  function FileProblems(lines: seq<Line>): seq<Problem> {
    match ManifestOf(lines)
    case None => LineProblems(lines) + [NoManifest]
    case Some(m) =>
      LineProblems(lines) + ClaimProblems(m, |EntriesOf(lines)|) + EntryProblems(m, EntriesOf(lines))
  }

  // ─── Reading ───────────────────────────────────────────────────────────────

  lemma ReadNext(lines: seq<Line>, i: nat, next: nat)
    requires next == i + 1 <= |lines|
    ensures EntriesOf(lines[..next]) == EntriesOf(lines[..i]) + EntryOf(lines[i], next)
    ensures LineProblems(lines[..next]) == LineProblems(lines[..i]) + LineProblem(lines[i], next)
    ensures ManifestOf(lines[..next]) ==
            if i == 0 && lines[0].ManifestLine? then Some(lines[0].manifest) else ManifestOf(lines[..i])
  {
    assert lines[..next][..i] == lines[..i];
  }

  method ReadLines(lines: seq<Line>) returns (manifest: Option<Manifest>, entries: seq<Entry>, problems: seq<Problem>)
    ensures manifest == ManifestOf(lines) && entries == EntriesOf(lines) && problems == LineProblems(lines)
  {
    manifest, entries, problems := None, [], [];
    for i := 0 to |lines|
      invariant manifest == ManifestOf(lines[..i])
      invariant entries == EntriesOf(lines[..i]) && problems == LineProblems(lines[..i])
    {
      ReadNext(lines, i, i + 1);
      match lines[i]
      case NotJson => problems := problems + [NotJsonAt(i + 1)];
      case NotALine => problems := problems + [NotALineAt(i + 1)];
      case ManifestLine(m) =>
        if i + 1 != 1 { problems := problems + [ManifestAt(i + 1)]; } else { manifest := Some(m); }
      case EventLine(e) => entries := entries + [Entry(i + 1, e)];
    }
    assert lines[..|lines|] == lines;
  }

  /** The walk has seen the keys of these entries and remembers the last of their events. */
  ghost predicate Remembers(earlier: seq<Entry>, seen: set<string>, previous: Option<Event>) {
    && (forall key :: key in seen <==> KeyAmong(earlier, key))
    && previous == if earlier == [] then None else Some(earlier[|earlier| - 1].event)
  }

  method CheckEntry(m: Manifest, ghost earlier: seq<Entry>, entry: Entry, seen: set<string>, previous: Option<Event>)
    returns (problems: seq<Problem>)
    requires Remembers(earlier, seen, previous)
    ensures problems == EntryProblem(m, earlier, entry)
  {
    problems := [];
    var Entry(line, event) := entry;
    assert (previous.Some? && Compare(previous.value, event) > 0)
        <==> (earlier != [] && Compare(earlier[|earlier| - 1].event, event) > 0);
    if event.mint != m.mint { problems := problems + [OtherMint(line)]; }
    if event.slot < m.fromSlot || event.slot > m.toSlot { problems := problems + [OutsideWindow(line)]; }
    if KeyOf(event) in seen { problems := problems + [Twice(line)]; }
    if previous.Some? && Compare(previous.value, event) > 0 { problems := problems + [OutOfOrder(line)]; }
  }

  method CheckEntries(m: Manifest, entries: seq<Entry>) returns (problems: seq<Problem>)
    ensures problems == EntryProblems(m, entries)
  {
    problems := [];
    var seen: set<string>, previous: Option<Event> := {}, None;
    for i := 0 to |entries|
      invariant problems == EntryProblems(m, entries[..i])
      invariant Remembers(entries[..i], seen, previous)
    {
      var found := CheckEntry(m, entries[..i], entries[i], seen, previous);
      CheckedNext(m, entries, i, i + 1);
      problems := problems + found;
      seen := seen + {KeyOf(entries[i].event)};
      previous := Some(entries[i].event);
    }
    assert entries[..|entries|] == entries;
  }

  lemma CheckedNext(m: Manifest, entries: seq<Entry>, i: nat, next: nat)
    requires next == i + 1 <= |entries|
    ensures EntryProblems(m, entries[..next])
            == EntryProblems(m, entries[..i]) + EntryProblem(m, entries[..i], entries[i])
    ensures forall seen, previous :: Remembers(entries[..i], seen, previous) ==>
              Remembers(entries[..next], seen + {KeyOf(entries[i].event)}, Some(entries[i].event))
  {
    NextPrefix(entries, i, next);
    EntryProblemsStep(m, entries[..i], entries[i]);
    KeysAfter(entries[..i], entries[i]);
  }

  lemma EntryProblemsStep(m: Manifest, earlier: seq<Entry>, entry: Entry)
    ensures EntryProblems(m, earlier + [entry]) == EntryProblems(m, earlier) + EntryProblem(m, earlier, entry)
  {
    assert (earlier + [entry])[..|earlier|] == earlier;
  }

  lemma KeysAfter(earlier: seq<Entry>, entry: Entry)
    ensures forall key :: KeyAmong(earlier + [entry], key) <==> KeyAmong(earlier, key) || key == KeyOf(entry.event)
  {
    var all := earlier + [entry];
    forall key ensures KeyAmong(all, key) <==> KeyAmong(earlier, key) || key == KeyOf(entry.event) {
      if KeyAmong(earlier, key) {
        var i :| 0 <= i < |earlier| && KeyOf(earlier[i].event) == key;
        assert KeyOf(all[i].event) == key;
      }
      if key == KeyOf(entry.event) { assert KeyOf(all[|earlier|].event) == key; }
    }
  }

  /** Reads the lines, then the manifest's claims, then the entries one by one. */
  method ReadJournal(lines: seq<Line>) returns (file: File)
    ensures file == File(ManifestOf(lines), EntriesOf(lines), FileProblems(lines))
  {
    var manifest, entries, problems := ReadLines(lines);
    if manifest.None? { return File(None, entries, problems + [NoManifest]); }
    var claimed := manifest.value;
    if claimed.count != |entries| { problems := problems + [WrongCount(claimed.count, |entries|)]; }
    if claimed.toSlot > claimed.indexedThroughSlot { problems := problems + [PastIndexed]; }
    assert problems == LineProblems(lines) + ClaimProblems(claimed, |entries|);
    var more := CheckEntries(claimed, entries);
    file := File(manifest, entries, problems + more);
  }

  // ─── What a file without problems is ───────────────────────────────────────

  function EventsOf(entries: seq<Entry>): (r: seq<Event>)
    ensures |r| == |entries|
  {
    seq(|entries|, i requires 0 <= i < |entries| => entries[i].event)
  }

  predicate Inside(m: Manifest, e: Event) { e.mint == m.mint && m.fromSlot <= e.slot <= m.toSlot }

  ghost predicate DistinctKeys(events: seq<Event>) {
    forall i, j :: 0 <= i < j < |events| ==> KeyOf(events[i]) != KeyOf(events[j])
  }

  ghost predicate AllFine(m: Manifest, events: seq<Event>) {
    (forall e :: e in events ==> Inside(m, e)) && Ascending(events, Less) && DistinctKeys(events)
  }

  /** The manifest, then its count of events: of its mint, inside its window, strictly ordered, none twice. */
  ghost predicate IsJournal(lines: seq<Line>, m: Manifest, events: seq<Event>) {
    && lines == FileOf(m, events)
    && m.count == |events| && m.toSlot <= m.indexedThroughSlot
    && AllFine(m, events)
  }

  lemma {:induction false} NoLineProblems(lines: seq<Line>)
    ensures LineProblems(lines) == [] <==>
            forall i :: 0 <= i < |lines| ==> lines[i].EventLine? || (i == 0 && lines[i].ManifestLine?)
  {
    if lines != [] { NoLineProblems(lines[..|lines| - 1]); }
  }

  lemma {:induction false} EntriesAre(lines: seq<Line>)
    requires lines != [] && lines[0].ManifestLine?
    requires forall i :: 1 <= i < |lines| ==> lines[i].EventLine?
    ensures |EntriesOf(lines)| == |lines| - 1
    ensures forall i :: 1 <= i < |lines| ==> EntriesOf(lines)[i - 1] == Entry(i + 1, lines[i].event)
  {
    if |lines| > 1 { EntriesAre(lines[..|lines| - 1]); }
    if |lines| == 1 { assert lines[..0] == []; }
  }

  lemma EntriesOfFile(m: Manifest, events: seq<Event>)
    ensures ManifestOf(FileOf(m, events)) == Some(m)
    ensures EventsOf(EntriesOf(FileOf(m, events))) == events
    ensures LineProblems(FileOf(m, events)) == []
  {
    var lines := FileOf(m, events);
    NoLineProblems(lines);
    EntriesAre(lines);
    forall i | 0 <= i < |events| ensures EventsOf(EntriesOf(lines))[i] == events[i] {
      assert EntriesOf(lines)[(i + 1) - 1] == Entry(i + 2, lines[i + 1].event);
    }
  }

  lemma FileOfEntries(lines: seq<Line>)
    requires LineProblems(lines) == [] && ManifestOf(lines).Some?
    ensures lines == FileOf(ManifestOf(lines).value, EventsOf(EntriesOf(lines)))
  {
    NoLineProblems(lines);
    EntriesAre(lines);
    var file := FileOf(ManifestOf(lines).value, EventsOf(EntriesOf(lines)));
    forall i | 0 <= i < |lines| ensures lines[i] == file[i] {
      if i > 0 { assert EntriesOf(lines)[i - 1] == Entry(i + 1, lines[i].event); }
    }
  }

  /** Entries without problems, one more of them. */
  lemma EntryFine(m: Manifest, earlier: seq<Entry>, entry: Entry)
    requires Ascending(EventsOf(earlier), Less)
    ensures EntryProblem(m, earlier, entry) == [] <==>
            Inside(m, entry.event) && !KeyAmong(earlier, KeyOf(entry.event))
            && (forall e :: e in EventsOf(earlier) ==> Less(e, entry.event))
  {
    var e := entry.event;
    LessIsOrder();
    if earlier != [] {
      var last := earlier[|earlier| - 1].event;
      assert EventsOf(earlier)[|earlier| - 1] == last;
      OrdersAgree(last, e);
      if Compare(last, e) == 0 { KeyIdentifies(last, e); }
      forall x | x in EventsOf(earlier) ensures x == last || Less(x, last) {
        var i :| 0 <= i < |earlier| && EventsOf(earlier)[i] == x;
      }
    }
  }

  /** One more entry keeps the events in order and apart exactly when it has no problem. */
  lemma OneMoreFine(m: Manifest, earlier: seq<Entry>, entry: Entry)
    ensures AllFine(m, EventsOf(earlier + [entry])) <==>
            AllFine(m, EventsOf(earlier)) && EntryProblem(m, earlier, entry) == []
  {
    var events := EventsOf(earlier);
    assert EventsOf(earlier + [entry]) == events + [entry.event];
    OneMore(events, entry.event);
    OneMoreInside(m, events, entry.event);
    KeyAmongEvents(earlier, KeyOf(entry.event));
    if Ascending(events, Less) { EntryFine(m, earlier, entry); }
  }

  lemma OneMoreInside(m: Manifest, events: seq<Event>, e: Event)
    ensures (forall x :: x in events + [e] ==> Inside(m, x)) <==> (forall x :: x in events ==> Inside(m, x)) && Inside(m, e)
  {
    assert e in events + [e];
  }

  lemma {:induction false} NoEntryProblems(m: Manifest, entries: seq<Entry>)
    ensures EntryProblems(m, entries) == [] <==> AllFine(m, EventsOf(entries))
  {
    if entries != [] {
      var n := |entries| - 1;
      var earlier, entry := entries[..n], entries[n];
      NoEntryProblems(m, earlier);
      NextPrefix(entries, n, n + 1);
      assert entries[..n + 1] == entries;
      OneMoreFine(m, earlier, entry);
      EntryProblemsStep(m, earlier, entry);
    }
  }

  lemma KeyAmongEvents(entries: seq<Entry>, key: string)
    ensures KeyAmong(entries, key) <==> exists e :: e in EventsOf(entries) && KeyOf(e) == key
  {
    if KeyAmong(entries, key) {
      var i :| 0 <= i < |entries| && KeyOf(entries[i].event) == key;
      assert EventsOf(entries)[i] in EventsOf(entries);
    }
    if e :| e in EventsOf(entries) && KeyOf(e) == key {
      var i :| 0 <= i < |entries| && EventsOf(entries)[i] == e;
      assert KeyOf(entries[i].event) == key;
    }
  }

  lemma OneMore(events: seq<Event>, e: Event)
    ensures Ascending(events + [e], Less) <==> Ascending(events, Less) && forall x :: x in events ==> Less(x, e)
    ensures DistinctKeys(events + [e]) <==> DistinctKeys(events) && forall x :: x in events ==> KeyOf(x) != KeyOf(e)
  {
    var all := events + [e];
    assert forall i :: 0 <= i < |events| ==> all[i] == events[i];
    assert all[|events|] == e;
  }

  /** A file has no problem exactly when it is a journal of what its manifest claims. */
  lemma NoProblems(lines: seq<Line>)
    ensures
      FileProblems(lines) == [] <==>
      ManifestOf(lines).Some? && IsJournal(lines, ManifestOf(lines).value, EventsOf(EntriesOf(lines)))
  {
    if ManifestOf(lines).Some? {
      var m := ManifestOf(lines).value;
      var entries := EntriesOf(lines);
      NoEntryProblems(m, entries);
      if LineProblems(lines) == [] { FileOfEntries(lines); }
      if lines == FileOf(m, EventsOf(entries)) { EntriesOfFile(m, EventsOf(entries)); }
    }
  }

  /** A file cut anywhere before its end, the end of its last line included, is seen to be short without any network. */
  lemma CutIsVisible(m: Manifest, events: seq<Event>, kept: nat)
    requires m.count == |events| && kept < |events|
    ensures WrongCount(|events|, kept) in FileProblems(FileOf(m, events[..kept]))
    ensures NoManifest in FileProblems([])
  {
    EntriesOfFile(m, events[..kept]);
  }
}
