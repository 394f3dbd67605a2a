/** The report client: rebuilding a complete history page by page from a log that keeps growing, and merging
    two such histories. */
module AuditReport {
  import opened Common
  import opened AuditLog

  const REPORT_PAGE_LIMIT := 100

  /** The validated fields, and the event they were read from in place of the allowlisted payload. */
  datatype ReportEvent = ReportEvent(payload: AuditEvent, eventId: string, createdAt: int, sequence: nat)

  datatype PaginationError =
    | Rejected | InvalidEvents | EmptyContinuation | DuplicateEvent | IncoherentSnapshot | ChangedSnapshot
    | InvalidCursor | InconsistentChronology | InconsistentOverlap

  /** _parse_audit_report_event; None for a refused event. */
  function Parse(row: Row): Option<ReportEvent> {
    var e := row.event;
    if e.eventId == "" || e.eventType == "" || e.eventClass !in {"control", "decision"}
       || e.decision !in {"permit", "deny"} || e.createdAt.Naive? || row.sequence < 1 then None
    else Some(ReportEvent(e, e.eventId, e.createdAt.utc, row.sequence))
  }

  function ParsePage(rows: seq<Row>): (events: Option<seq<ReportEvent>>)
    ensures events.Some? <==> forall row | row in rows :: Parse(row).Some?
    ensures events.Some? ==> |events.value| == |rows|
    ensures events.Some? ==> forall i | 0 <= i < |rows| :: Parse(rows[i]) == Some(events.value[i])
  {
    if rows == [] then Some([])
    else
      var first, rest := Parse(rows[0]), ParsePage(rows[1..]);
      assert forall row :: row in rows <==> row == rows[0] || row in rows[1..];
      if first.None? || rest.None? then None else Some([first.value] + rest.value)
  }

  /** The pages are collected newest first. */
  function OldestFirst(pages: seq<seq<ReportEvent>>): seq<ReportEvent> {
    if pages == [] then [] else OldestFirst(pages[1..]) + pages[0]
  }

  lemma {:induction false} OnePageMore(pages: seq<seq<ReportEvent>>, page: seq<ReportEvent>)
    ensures OldestFirst(pages + [page]) == page + OldestFirst(pages)
  {
    if pages != [] {
      assert (pages + [page])[1..] == pages[1..] + [page];
      OnePageMore(pages[1..], page);
    }
  }

  /** The log as each reading finds it, two readings a request: it only grows, and ids stay unique. */
  ghost predicate Growing(logs: nat -> seq<AuditEvent>) {
    forall k: nat :: logs(k) <= logs(k + 1) && UniqueIds(logs(k))
  }

  lemma {:induction false} GrownSince(logs: nat -> seq<AuditEvent>, k: nat)
    requires Growing(logs)
    ensures logs(0) <= logs(k)
  {
    if k > 0 {
      GrownSince(logs, k - 1);
      assert logs(k - 1) <= logs(k - 1 + 1);
    }
  }

  /** The whole history as the log stood at the first request. */
  function History(log: seq<AuditEvent>, workspace: string, f: Filter): seq<Row> {
    RowsUpTo(log, workspace, f, |log|)
  }

  function Report(log: seq<AuditEvent>, workspace: string, f: Filter): Result<seq<ReportEvent>, PaginationError> {
    var events := ParsePage(History(log, workspace, f));
    if !f.Acceptable() then Err(Rejected) else if events.None? then Err(InvalidEvents) else Ok(events.value)
  }

  predicate SortedById(rows: seq<Row>) {
    && (forall i, j | 0 <= i < j < |rows| :: rows[i].event.eventId != rows[j].event.eventId)
    && (forall i, j | 0 <= i < j < |rows| :: rows[i].sequence < rows[j].sequence)
  }

  lemma HistoryIsOrdered(log: seq<AuditEvent>, workspace: string, f: Filter)
    requires UniqueIds(log)
    ensures SortedById(History(log, workspace, f))
  {
    var rows := History(log, workspace, f);
    RowsAreTheSelectedEvents(log, workspace, f, |log|);
    forall i, j | 0 <= i < j < |rows| ensures rows[i].event.eventId != rows[j].event.eventId {
      assert Row(rows[i].event, rows[i].sequence) in rows && Row(rows[j].event, rows[j].sequence) in rows;
    }
  }

  function Ids(rows: seq<Row>): set<string> { set row | row in rows :: row.event.eventId }

  /** Where the loop stands: everything from row m on has been received, parsed and marked as seen. */
  ghost predicate Received(rows: seq<Row>, m: nat, pages: seq<seq<ReportEvent>>, snapshot: Option<string>,
                           before: Option<string>, cursors: set<string>, ids: set<string>)
  {
    if before.None? then m == |rows| && pages == [] && snapshot.None? && cursors == {} && ids == {}
    else
      && 0 < m < |rows| && before == Some(rows[m].event.eventId)
      && snapshot == Some(rows[|rows| - 1].event.eventId)
      && ParsePage(rows[m..]) == Some(OldestFirst(pages))
      && ids == Ids(rows[m..]) && cursors <= ids
  }

  /** The page that ends before row m, of at most the page limit. */
  function PageStart(m: nat): nat { if m > REPORT_PAGE_LIMIT then m - REPORT_PAGE_LIMIT else 0 }

  function Cursor(rows: seq<Row>, lo: nat): Option<string>
    requires lo <= |rows|
  {
    if 0 < lo < |rows| then Some(rows[lo].event.eventId) else None
  }

  function Snapshot(rows: seq<Row>): Option<string> {
    if rows == [] then None else Some(rows[|rows| - 1].event.eventId)
  }

  lemma ParsedIdNonempty(rows: seq<Row>, m: nat, events: seq<ReportEvent>, i: nat)
    requires m <= i < |rows| && ParsePage(rows[m..]) == Some(events)
    ensures rows[i].event.eventId != ""
  {
    assert rows[m..][i - m] == rows[i];
    assert Parse(rows[m..][i - m]).Some?;
  }

  /** Whatever has been appended meanwhile, the service answers with the next page of the first history. */
  lemma NextPage(logs: nat -> seq<AuditEvent>, workspace: string, f: Filter, k: nat, m: nat,
                 pages: seq<seq<ReportEvent>>, snapshot: Option<string>, before: Option<string>,
                 cursors: set<string>, ids: set<string>)
    requires Growing(logs) && f.Acceptable() && (before.None? ==> k == 0)
    requires Received(History(logs(0), workspace, f), m, pages, snapshot, before, cursors, ids)
    ensures var rows := History(logs(0), workspace, f);
      ServePage(logs(2 * k), logs(2 * k + 1), workspace, f, snapshot, before, REPORT_PAGE_LIMIT)
      == Some(Page(rows[PageStart(m)..m], Snapshot(rows), Cursor(rows, PageStart(m))))
  {
    hide ServePage;
    hide RowsUpTo;
    hide ParsePage;
    hide Ids;
    hide OldestFirst;
    hide UniqueIds;
    var log, rows := logs(0), History(logs(0), workspace, f);
    if before.None? {
      GrownSince(logs, 1);
      FirstPage(log, logs(1), workspace, f, REPORT_PAGE_LIMIT);
      assert rows[PageStart(m)..m] == rows[PageStart(m)..];
    } else {
      GrownSince(logs, 2 * k);
      ParsedIdNonempty(rows, m, OldestFirst(pages), m);
      ParsedIdNonempty(rows, m, OldestFirst(pages), |rows| - 1);
      ContinuationPage(log, logs(2 * k), logs(2 * k + 1), workspace, f, m, REPORT_PAGE_LIMIT);
    }
  }

  lemma ParsedTogether(a: seq<Row>, b: seq<Row>)
    ensures ParsePage(a + b).Some? <==> ParsePage(a).Some? && ParsePage(b).Some?
    ensures ParsePage(a + b).Some? ==> ParsePage(a + b).value == ParsePage(a).value + ParsePage(b).value
  {
    hide Parse;
    hide ParsePage;
    if ParsePage(a + b).Some? {
      var both := ParsePage(a + b).value;
      forall row | row in a ensures Parse(row).Some? { assert row in a + b; }
      forall row | row in b ensures Parse(row).Some? { assert row in a + b; }
      var left, right := ParsePage(a).value, ParsePage(b).value;
      forall i | 0 <= i < |both| ensures both[i] == (left + right)[i] {
        assert Parse((a + b)[i]) == Some(both[i]);
        if i < |a| { assert Parse(a[i]) == Some(left[i]); } else { assert Parse(b[i - |a|]) == Some(right[i - |a|]); }
      }
    }
  }

  lemma PageAndRest(rows: seq<Row>, lo: nat, m: nat)
    requires lo <= m <= |rows|
    ensures rows[lo..] == rows[lo..m] + rows[m..]
    ensures Ids(rows[lo..]) == Ids(rows[lo..m]) + Ids(rows[m..])
    ensures ParsePage(rows[lo..]).Some? <==> ParsePage(rows[lo..m]).Some? && ParsePage(rows[m..]).Some?
    ensures ParsePage(rows[lo..]).Some? ==>
              ParsePage(rows[lo..]).value == ParsePage(rows[lo..m]).value + ParsePage(rows[m..]).value
  {
    hide ParsePage;
    assert rows[lo..] == rows[lo..m] + rows[m..];
    ParsedTogether(rows[lo..m], rows[m..]);
  }

  lemma PagesApart(rows: seq<Row>, lo: nat, m: nat)
    requires SortedById(rows) && lo <= m <= |rows|
    ensures Ids(rows[lo..m]) !! Ids(rows[m..])
  {
  }

  function EventIds(page: seq<ReportEvent>): set<string> { set e | e in page :: e.eventId }

  lemma OneEventMore(page: seq<ReportEvent>, i: nat)
    requires i < |page|
    ensures EventIds(page[..i + 1]) == EventIds(page[..i]) + {page[i].eventId}
    ensures page[i].eventId in EventIds(page[..i]) <==> exists j | 0 <= j < i :: page[j].eventId == page[i].eventId
  {
    assert page[..i + 1] == page[..i] + [page[i]];
    forall j | 0 <= j < i ensures page[j].eventId in EventIds(page[..i]) { assert page[j] in page[..i]; }
  }

  /** The duplicate check of one page. */
  method SeeAll(page: seq<ReportEvent>, seen: set<string>) returns (duplicate: bool, after: set<string>)
    ensures duplicate == Duplicated(page, seen)
    ensures !duplicate ==> after == seen + EventIds(page)
  {
    hide EventIds;
    after := seen;
    assert page[..0] == [];
    assert EventIds([]) == {} by { NoEventIds(); }
    for i := 0 to |page|
      invariant after == seen + EventIds(page[..i])
      invariant forall j | 0 <= j < i :: page[j].eventId !in seen
      invariant forall j, k | 0 <= j < k < i :: page[j].eventId != page[k].eventId
    {
      OneEventMore(page, i);
      if page[i].eventId in after {
        return true, after;
      }
      after := after + {page[i].eventId};
    }
    assert page[..|page|] == page;
    return false, after;
  }

  lemma NoEventIds()
    ensures EventIds([]) == {}
  {
  }

  /** The checks on one page, in the client's order; None when it is accepted. */
  function PageProblem(page: seq<ReportEvent>, raw: Option<string>, next: Option<string>, snapshot: Option<string>,
                       before: Option<string>, cursors: set<string>, duplicate: bool):
    (problem: Option<PaginationError>)
    ensures problem.None? <==>
      && raw != Some("") && next != Some("") && !duplicate && (page == [] ==> before.None?)
      && raw == (if snapshot.Some? then snapshot else if page == [] then None else Some(page[|page| - 1].eventId))
      && (next.Some? ==> raw.Some? && page != [] && next.value == page[0].eventId && next.value !in cursors)
    ensures problem == Some(EmptyContinuation) ==> before.Some? && page == []
    ensures problem == Some(DuplicateEvent) ==> duplicate
    ensures problem == Some(ChangedSnapshot) ==> snapshot.Some? && raw != snapshot
    ensures problem == Some(IncoherentSnapshot) ==>
      snapshot.None? && raw != (if page == [] then None else Some(page[|page| - 1].eventId))
    ensures problem == Some(InvalidCursor) ==>
      || raw == Some("") || next == Some("")
      || (next.Some? && (raw.None? || page == [] || next.value != page[0].eventId || next.value in cursors))
    ensures problem.Some? ==>
      problem.value in {InvalidCursor, EmptyContinuation, DuplicateEvent, IncoherentSnapshot, ChangedSnapshot}
  {
    if raw == Some("") || next == Some("") then Some(InvalidCursor)
    else if before.Some? && page == [] then Some(EmptyContinuation)
    else if duplicate then Some(DuplicateEvent)
    else if snapshot.None? && page == [] && raw.Some? then Some(IncoherentSnapshot)
    else if snapshot.None? && page != [] && raw != Some(page[|page| - 1].eventId) then Some(IncoherentSnapshot)
    else if snapshot.Some? && raw != snapshot then Some(ChangedSnapshot)
    else if next.None? then None
    else if raw.None? || next.value in cursors || page == [] || page[0].eventId != next.value then Some(InvalidCursor)
    else None
  }

  lemma ParsedAt(rows: seq<Row>, page: seq<ReportEvent>, i: nat)
    requires ParsePage(rows) == Some(page) && i < |rows|
    ensures |page| == |rows| && page[i].eventId == rows[i].event.eventId && page[i].sequence == rows[i].sequence
    ensures page[i].eventId != ""
  {
    assert Parse(rows[i]) == Some(page[i]);
  }

  lemma {:induction false} ParsedIds(rows: seq<Row>, page: seq<ReportEvent>)
    requires ParsePage(rows) == Some(page)
    ensures EventIds(page) == Ids(rows)
  {
    if rows != [] {
      ParsedIds(rows[1..], page[1..]);
      ParsedAt(rows, page, 0);
      assert rows == [rows[0]] + rows[1..] && page == [page[0]] + page[1..];
    }
  }

  predicate Duplicated(page: seq<ReportEvent>, seen: set<string>) {
    || (exists i | 0 <= i < |page| :: page[i].eventId in seen)
    || (exists i, j | 0 <= i < j < |page| :: page[i].eventId == page[j].eventId)
  }

  /** No event of the next page has been seen. */
  lemma PageIsNew(rows: seq<Row>, lo: nat, m: nat, page: seq<ReportEvent>)
    requires SortedById(rows) && lo <= m <= |rows| && ParsePage(rows[lo..m]) == Some(page)
    ensures !Duplicated(page, Ids(rows[m..]))
    ensures EventIds(page) + Ids(rows[m..]) == Ids(rows[lo..])
  {
    hide Parse;
    hide ParsePage;
    hide Ids;
    hide SortedById;
    ParsedIds(rows[lo..m], page);
    PageAndRest(rows, lo, m);
    PagesApart(rows, lo, m);
    PageIdsDiffer(rows, lo, m, page);
    forall i | 0 <= i < |page| ensures page[i].eventId !in Ids(rows[m..]) {
      assert page[i].eventId in EventIds(page);
    }
  }

  lemma PageIdsDiffer(rows: seq<Row>, lo: nat, m: nat, page: seq<ReportEvent>)
    requires SortedById(rows) && lo <= m <= |rows| && ParsePage(rows[lo..m]) == Some(page)
    ensures forall i, j | 0 <= i < j < |page| :: page[i].eventId != page[j].eventId
  {
    hide Parse;
    hide ParsePage;
    forall i, j | 0 <= i < j < |page| ensures page[i].eventId != page[j].eventId {
      ParsedAt(rows[lo..m], page, i);
      ParsedAt(rows[lo..m], page, j);
    }
  }

  /** What one round of the loop works on. */
  ghost predicate Round(rows: seq<Row>, m: nat, pages: seq<seq<ReportEvent>>, snapshot: Option<string>,
                        before: Option<string>, cursors: set<string>, ids: set<string>, page: seq<ReportEvent>)
  {
    && SortedById(rows) && Received(rows, m, pages, snapshot, before, cursors, ids) && m <= |rows|
    && ParsePage(rows[PageStart(m)..m]) == Some(page)
  }

  lemma LastId(rows: seq<Row>, m: nat, page: seq<ReportEvent>)
    requires m <= |rows| && ParsePage(rows[PageStart(m)..m]) == Some(page)
    ensures |page| == m - PageStart(m) && (m > 0 ==> |page| > 0)
    ensures m > 0 ==> page[|page| - 1].eventId == rows[m - 1].event.eventId && page[|page| - 1].eventId != ""
    ensures m > 0 ==> page[0].eventId == rows[PageStart(m)].event.eventId && page[0].eventId != ""
  {
    hide Parse;
    if m > 0 {
      ParsedAt(rows[PageStart(m)..m], page, 0);
      ParsedAt(rows[PageStart(m)..m], page, m - PageStart(m) - 1);
    }
  }

  lemma CursorIsNew(rows: seq<Row>, lo: nat, m: nat)
    requires SortedById(rows) && lo < m <= |rows|
    ensures rows[lo].event.eventId !in Ids(rows[m..])
  {
  }

  /** The service's page passes every check. */
  lemma NoProblem(rows: seq<Row>, m: nat, pages: seq<seq<ReportEvent>>, snapshot: Option<string>,
                  before: Option<string>,
                  cursors: set<string>, ids: set<string>, page: seq<ReportEvent>)
    requires Round(rows, m, pages, snapshot, before, cursors, ids, page)
    ensures var (raw, next) := (Snapshot(rows), Cursor(rows, PageStart(m)));
      PageProblem(page, raw, next, snapshot, before, cursors, Duplicated(page, ids)).None?
  {
    hide Parse;
    hide ParsePage;
    hide SortedById;
    hide OldestFirst;
    hide Ids;
    hide Duplicated;
    LastId(rows, m, page);
    PageIsNew(rows, PageStart(m), m, page);
    if m > 0 { CursorIsNew(rows, PageStart(m), m); }
    SnapshotNonempty(rows, m, pages, snapshot, before, cursors, ids, page);
    if before.None? { NothingYet(rows[m..], pages); }
  }

  lemma SnapshotNonempty(rows: seq<Row>, m: nat, pages: seq<seq<ReportEvent>>, snapshot: Option<string>,
                         before: Option<string>, cursors: set<string>, ids: set<string>, page: seq<ReportEvent>)
    requires Round(rows, m, pages, snapshot, before, cursors, ids, page)
    ensures Snapshot(rows) != Some("")
  {
    hide Parse;
    hide ParsePage;
    hide Ids;
    hide SortedById;
    hide OldestFirst;
    LastId(rows, m, page);
    if before.Some? {
      ParsedIdNonempty(rows, m, OldestFirst(pages), |rows| - 1);
    }
  }

  /** One accepted page more. */
  lemma RoundDone(rows: seq<Row>, m: nat, pages: seq<seq<ReportEvent>>, snapshot: Option<string>,
                  before: Option<string>,
                  cursors: set<string>, ids: set<string>, page: seq<ReportEvent>)
    requires Round(rows, m, pages, snapshot, before, cursors, ids, page)
    ensures var lo, next := PageStart(m), Cursor(rows, PageStart(m));
      && ParsePage(rows[lo..]) == Some(OldestFirst(pages + [page]))
      && (next.Some? ==> lo < m && Received(rows, lo, pages + [page], Snapshot(rows), next, cursors + {next.value},
                                  ids + EventIds(page)))
      && (next.None? ==> lo == 0) && !Duplicated(page, ids)
  {
    hide Parse;
    hide ParsePage;
    hide SortedById;
    hide OldestFirst;
    hide Ids;
    var lo := PageStart(m);
    PageAndRest(rows, lo, m);
    OnePageMore(pages, page);
    PageIsNew(rows, lo, m, page);
    LastId(rows, m, page);
    if before.None? { NothingYet(rows[m..], pages); }
    if lo > 0 { OwnId(rows[lo..]); }
  }

  lemma NothingYet(rows: seq<Row>, pages: seq<seq<ReportEvent>>)
    requires rows == [] && pages == []
    ensures Ids(rows) == {} && ParsePage(rows) == Some([]) && OldestFirst(pages) == []
  {
  }

  lemma OwnId(rows: seq<Row>)
    requires rows != []
    ensures rows[0].event.eventId in Ids(rows)
  {
  }

  lemma RoundFails(rows: seq<Row>, m: nat)
    requires m <= |rows| && ParsePage(rows[PageStart(m)..m]).None?
    ensures ParsePage(rows).None?
  {
    var lo := PageStart(m);
    PageAndRest(rows, lo, m);
    PageAndRest(rows, 0, lo);
    assert rows[0..] == rows;
  }

  lemma ChronologyHolds(rows: seq<Row>, complete: seq<ReportEvent>)
    requires SortedById(rows) && ParsePage(rows) == Some(complete)
    ensures forall i | 0 <= i < |complete| - 1 :: complete[i].sequence < complete[i + 1].sequence
  {
    hide Parse;
    forall i | 0 <= i < |complete| - 1 ensures complete[i].sequence < complete[i + 1].sequence {
      ParsedAt(rows, complete, i);
      ParsedAt(rows, complete, i + 1);
    }
  }

  /** Either the filter is refused or the answer is the next page. */
  lemma Answer(logs: nat -> seq<AuditEvent>, workspace: string, f: Filter, k: nat, m: nat,
               pages: seq<seq<ReportEvent>>, snapshot: Option<string>, before: Option<string>,
               cursors: set<string>, ids: set<string>)
    requires Growing(logs) && (before.None? ==> k == 0)
    requires Received(History(logs(0), workspace, f), m, pages, snapshot, before, cursors, ids)
    ensures var rows := History(logs(0), workspace, f);
      ServePage(logs(2 * k), logs(2 * k + 1), workspace, f, snapshot, before, REPORT_PAGE_LIMIT) ==
        if !f.Acceptable() then None
        else Some(Page(rows[PageStart(m)..m], Snapshot(rows), Cursor(rows, PageStart(m))))
  {
    hide ListFiltered;
    hide RowsUpTo;
    hide Received;
    hide Growing;
    if f.Acceptable() {
      NextPage(logs, workspace, f, k, m, pages, snapshot, before, cursors, ids);
    }
  }

  lemma Begins(logs: nat -> seq<AuditEvent>, workspace: string, f: Filter)
    requires Growing(logs)
    ensures var rows := History(logs(0), workspace, f);
      SortedById(rows) && Received(rows, |rows|, [], None, None, {}, {})
  {
    hide RowsUpTo;
    assert UniqueIds(logs(0));
    HistoryIsOrdered(logs(0), workspace, f);
  }

  lemma WholeHistory(rows: seq<Row>, pages: seq<seq<ReportEvent>>)
    requires ParsePage(rows[0..]) == Some(OldestFirst(pages)) && SortedById(rows)
    ensures ParsePage(rows) == Some(OldestFirst(pages))
    ensures var complete := OldestFirst(pages);
      forall i | 0 <= i < |complete| - 1 :: complete[i].sequence < complete[i + 1].sequence
  {
    hide OldestFirst;
    hide ParsePage;
    hide SortedById;
    assert rows[0..] == rows;
    ChronologyHolds(rows, OldestFirst(pages));
  }

  /** The report is the parsed history as the log stood when the first page was served, whatever is appended
      while the client pages; it fails only for a refused filter or an event that does not parse. */
  method CompleteAuditEvents(logs: nat -> seq<AuditEvent>, workspace: string, f: Filter)
    returns (r: Result<seq<ReportEvent>, PaginationError>)
    requires Growing(logs)
    ensures r == Report(logs(0), workspace, f)
  {
    hide ServePage;
    hide RowsUpTo;
    hide ParsePage;
    hide SortedById;
    hide Received;
    hide PageProblem;
    hide Duplicated;
    hide OldestFirst;
    hide Growing;
    hide Snapshot;
    hide Cursor;
    var pages: seq<seq<ReportEvent>> := [];
    var snapshot, before: Option<string> := None, None;
    var cursors, ids: set<string> := {}, {};
    var k := 0;
    ghost var rows := History(logs(0), workspace, f);
    ghost var m: nat := |rows|;
    Begins(logs, workspace, f);
    while true
      invariant 0 <= m <= |rows| && (before.None? ==> k == 0)
      invariant Received(rows, m, pages, snapshot, before, cursors, ids)
      decreases m + if before.None? then 1 else 0
    {
      var answer := ServePage(logs(2 * k), logs(2 * k + 1), workspace, f, snapshot, before, REPORT_PAGE_LIMIT);
      Answer(logs, workspace, f, k, m, pages, snapshot, before, cursors, ids);
      if answer.None? {
        return Err(Rejected);
      }
      k := k + 1;
      var parsed := ParsePage(answer.value.rows);
      if parsed.None? {
        RoundFails(rows, m);
        return Err(InvalidEvents);
      }
      var page, raw, next := parsed.value, answer.value.snapshotId, answer.value.nextBeforeId;
      var duplicate, seen := SeeAll(page, ids);
      var problem := PageProblem(page, raw, next, snapshot, before, cursors, duplicate);
      NoProblem(rows, m, pages, snapshot, before, cursors, ids, page);
      RoundDone(rows, m, pages, snapshot, before, cursors, ids, page);
      match problem {
        case Some(error) => return Err(error);
        case None =>
      }
      pages, m := pages + [page], PageStart(m);
      if next.None? { break; }
      snapshot, before := raw, next;
      cursors, ids := cursors + {next.value}, seen;
    }
    var complete := OldestFirst(pages);
    WholeHistory(rows, pages);
    if exists i | 0 <= i < |complete| - 1 :: complete[i].sequence >= complete[i + 1].sequence {
      return Err(InconsistentChronology);
    }
    return Ok(complete);
  }

  // ---- merging ------------------------------------------------------------------------------

  /** Two events contradict each other: one id for different events, or one sequence for different ids. */
  predicate Clash(a: ReportEvent, b: ReportEvent) {
    (a.eventId == b.eventId && a != b) || (a.sequence == b.sequence && a.eventId != b.eventId)
  }

  predicate Consistent(events: seq<ReportEvent>) {
    forall a, b | a in events && b in events :: !Clash(a, b)
  }

  function Joined(streams: seq<seq<ReportEvent>>): seq<ReportEvent> {
    if streams == [] then [] else Joined(streams[..|streams| - 1]) + streams[|streams| - 1]
  }

  predicate InSequence(events: seq<ReportEvent>) {
    forall i, j | 0 <= i < j < |events| :: events[i].sequence < events[j].sequence
  }

  lemma InsertedAt(sorted: seq<ReportEvent>, e: ReportEvent, i: nat)
    requires i <= |sorted| && InSequence(sorted)
    requires i > 0 ==> sorted[i - 1].sequence < e.sequence
    requires i < |sorted| ==> e.sequence < sorted[i].sequence
    ensures InSequence(sorted[..i] + [e] + sorted[i..])
  {
    var longer := sorted[..i] + [e] + sorted[i..];
    forall a, b | 0 <= a < b < |longer| ensures longer[a].sequence < longer[b].sequence {
      assert longer[a] == if a < i then sorted[a] else if a == i then e else sorted[a - 1];
      assert longer[b] == if b < i then sorted[b] else if b == i then e else sorted[b - 1];
    }
  }

  lemma InsertedMembers(sorted: seq<ReportEvent>, e: ReportEvent, i: nat)
    requires i <= |sorted|
    ensures forall other :: other in sorted[..i] + [e] + sorted[i..] <==> other in sorted || other == e
  {
    assert sorted == sorted[..i] + sorted[i..];
  }

  method Insert(sorted: seq<ReportEvent>, e: ReportEvent) returns (longer: seq<ReportEvent>)
    requires InSequence(sorted) && forall other | other in sorted :: other.sequence != e.sequence
    ensures InSequence(longer) && forall other :: other in longer <==> other in sorted || other == e
  {
    hide InSequence;
    var i := 0;
    while i < |sorted| && sorted[i].sequence < e.sequence
      invariant 0 <= i <= |sorted|
      invariant i > 0 ==> sorted[i - 1].sequence < e.sequence
    {
      i := i + 1;
    }
    if i < |sorted| { assert sorted[i] in sorted; }
    InsertedAt(sorted, e, i);
    InsertedMembers(sorted, e, i);
    longer := sorted[..i] + [e] + sorted[i..];
  }

  /** sorted by sequence, of events whose sequences differ. */
  method SortBySequence(events: set<ReportEvent>) returns (sorted: seq<ReportEvent>)
    requires forall a, b | a in events && b in events && a != b :: a.sequence != b.sequence
    ensures InSequence(sorted) && forall e :: e in sorted <==> e in events
  {
    hide InSequence;
    sorted := [];
    var left := events;
    assert InSequence(sorted) by { EmptyInSequence(); }
    while left != {}
      invariant left <= events && InSequence(sorted)
      invariant forall e :: e in sorted <==> e in events - left
    {
      var e :| e in left;
      sorted := Insert(sorted, e);
      left := left - {e};
    }
  }

  lemma EmptyInSequence()
    ensures InSequence([])
  {
  }

  predicate Indexed(done: seq<ReportEvent>, byId: map<string, ReportEvent>, idAt: map<nat, string>) {
    && (forall e | e in done :: e.eventId in byId && byId[e.eventId] == e)
    && (forall e | e in done :: e.sequence in idAt && idAt[e.sequence] == e.eventId)
    && (forall id | id in byId :: byId[id] in done && byId[id].eventId == id)
    && (forall n | n in idAt :: idAt[n] in byId && byId[idAt[n]].sequence == n)
  }

  predicate Refuses(byId: map<string, ReportEvent>, idAt: map<nat, string>, e: ReportEvent) {
    (e.eventId in byId && byId[e.eventId] != e) || (e.sequence in idAt && idAt[e.sequence] != e.eventId)
  }

  lemma RefusalIsClash(done: seq<ReportEvent>, byId: map<string, ReportEvent>, idAt: map<nat, string>, e: ReportEvent)
    requires Indexed(done, byId, idAt) && Refuses(byId, idAt, e)
    ensures exists a | a in done :: Clash(a, e)
    ensures e.eventId in byId && byId[e.eventId] != e ==> exists a | a in done :: a.eventId == e.eventId && a != e
    ensures e.sequence in idAt && idAt[e.sequence] != e.eventId ==>
      exists a | a in done :: a.sequence == e.sequence && a.eventId != e.eventId
  {
    if e.eventId in byId && byId[e.eventId] != e { assert byId[e.eventId] in done && Clash(byId[e.eventId], e); }
    if e.sequence in idAt && idAt[e.sequence] != e.eventId {
      var a := byId[idAt[e.sequence]];
      assert a in done && Clash(a, e);
    }
  }

  lemma IndexedOneMore(done: seq<ReportEvent>, byId: map<string, ReportEvent>, idAt: map<nat, string>, e: ReportEvent)
    requires Indexed(done, byId, idAt) && !Refuses(byId, idAt, e)
    ensures Indexed(done + [e], byId[e.eventId := e], idAt[e.sequence := e.eventId])
  {
  }

  /** An index without refusals means nothing clashes, and different events have different sequences. */
  lemma IndexedIsConsistent(done: seq<ReportEvent>, byId: map<string, ReportEvent>, idAt: map<nat, string>)
    requires Indexed(done, byId, idAt)
    ensures Consistent(done) && (forall e :: e in done <==> e in byId.Values)
    ensures forall a, b | a in byId.Values && b in byId.Values && a != b :: a.sequence != b.sequence
  {
    forall e | e in done ensures e in byId.Values { assert byId[e.eventId] == e; }
  }

  /** The merge succeeds exactly when no two events contradict each other, and then is every event of every
      stream once, in sequence order. */
  method MergeAuditEventStreams(streams: seq<seq<ReportEvent>>) returns (r: Result<seq<ReportEvent>, PaginationError>)
    ensures r.Ok? <==> Consistent(Joined(streams))
    ensures r.Ok? ==> InSequence(r.value) && forall e :: e in r.value <==> e in Joined(streams)
    ensures r.Err? ==> r.error.InconsistentOverlap? || r.error.InconsistentChronology?
    ensures r == Err(InconsistentOverlap) ==>
      exists a, b | a in Joined(streams) && b in Joined(streams) :: a.eventId == b.eventId && a != b
    ensures r == Err(InconsistentChronology) ==>
      exists a, b | a in Joined(streams) && b in Joined(streams) :: a.sequence == b.sequence && a.eventId != b.eventId
  {
    hide Indexed;
    hide Clash;
    hide InSequence;
    var byId: map<string, ReportEvent> := map[];
    var idAt: map<nat, string> := map[];
    ghost var done: seq<ReportEvent> := [];
    NothingIndexed();
    for s := 0 to |streams|
      invariant done == Joined(streams[..s])
      invariant Indexed(done, byId, idAt)
    {
      ghost var before := done;
      for i := 0 to |streams[s]|
        invariant done == before + streams[s][..i]
        invariant Indexed(done, byId, idAt)
      {
        var e := streams[s][i];
        JoinedCovers(streams, s, i);
        if Refuses(byId, idAt, e) { RefusalIsClash(done, byId, idAt, e); } else { IndexedOneMore(done, byId, idAt, e); }
        if e.eventId in byId && byId[e.eventId] != e {
          return Err(InconsistentOverlap);
        }
        if e.sequence in idAt && idAt[e.sequence] != e.eventId {
          return Err(InconsistentChronology);
        }
        byId := byId[e.eventId := e];
        idAt := idAt[e.sequence := e.eventId];
        done := done + [e];
      }
      assert streams[..s + 1][..s] == streams[..s];
    }
    assert streams[..|streams|] == streams;
    IndexedIsConsistent(done, byId, idAt);
    var sorted := SortBySequence(byId.Values);
    return Ok(sorted);
  }

  lemma NothingIndexed()
    ensures Indexed([], map[], map[])
  {
  }

  lemma {:induction false} JoinedCovers(streams: seq<seq<ReportEvent>>, s: nat, i: nat)
    requires s < |streams| && i < |streams[s]|
    ensures streams[s][i] in Joined(streams)
    ensures forall e | e in Joined(streams[..s]) + streams[s][..i] :: e in Joined(streams)
  {
    var last := |streams| - 1;
    if s < last {
      assert streams[..last][..s] == streams[..s];
      JoinedCovers(streams[..last], s, i);
    }
  }

  /** Reports of one growing log, under any filters and taken at any times, never contradict each other: each
      event is the event at its own position. */
  lemma ReportsAgree(logs: nat -> seq<AuditEvent>, j: nat, k: nat, workspace: string, f: Filter, g: Filter)
    requires Growing(logs) && Report(logs(j), workspace, f).Ok? && Report(logs(k), workspace, g).Ok?
    ensures forall a, b | a in Report(logs(j), workspace, f).value && b in Report(logs(k), workspace, g).value ::
      !Clash(a, b)
  {
    hide Parse;
    hide RowsUpTo;
    hide UniqueIds;
    forall a, b | a in Report(logs(j), workspace, f).value && b in Report(logs(k), workspace, g).value
      ensures !Clash(a, b)
    {
      var p := ReportedAt(logs(j), workspace, f, a);
      var q := ReportedAt(logs(k), workspace, g, b);
      SameLog(logs, j, k, p, q);
    }
  }

  /** A reported event is the parsed event at the position its sequence names. */
  lemma ReportedAt(log: seq<AuditEvent>, workspace: string, f: Filter, e: ReportEvent) returns (p: nat)
    requires Report(log, workspace, f).Ok? && e in Report(log, workspace, f).value
    ensures 1 <= p <= |log| && Parse(Row(log[p - 1], p)) == Some(e) && e.sequence == p
    ensures e.eventId == log[p - 1].eventId
  {
    hide RowsUpTo;
    hide Selected;
    hide ParsePage;
    var rows := History(log, workspace, f);
    var i :| 0 <= i < |Report(log, workspace, f).value| && Report(log, workspace, f).value[i] == e;
    var row := rows[i];
    assert Parse(row) == Some(e);
    RowOfLog(log, workspace, f, row);
    p := row.sequence;
  }

  lemma RowOfLog(log: seq<AuditEvent>, workspace: string, f: Filter, row: Row)
    requires row in History(log, workspace, f)
    ensures 1 <= row.sequence <= |log| && row == Row(log[row.sequence - 1], row.sequence)
  {
    hide RowsUpTo;
    hide Selected;
    RowsAreTheSelectedEvents(log, workspace, f, |log|);
    assert Row(row.event, row.sequence) in History(log, workspace, f);
  }

  lemma {:induction false} GrownBetween(logs: nat -> seq<AuditEvent>, j: nat, k: nat)
    requires Growing(logs) && j <= k
    ensures logs(j) <= logs(k)
    decreases k - j
  {
    if j < k {
      GrownBetween(logs, j, k - 1);
      assert logs(k - 1) <= logs(k - 1 + 1);
    }
  }

  lemma SameLog(logs: nat -> seq<AuditEvent>, j: nat, k: nat, p: nat, q: nat)
    requires Growing(logs) && 1 <= p <= |logs(j)| && 1 <= q <= |logs(k)|
    ensures p == q <==> logs(j)[p - 1].eventId == logs(k)[q - 1].eventId
    ensures p == q ==> logs(j)[p - 1] == logs(k)[q - 1]
  {
    var later := if j <= k then k else j;
    if j <= k { GrownBetween(logs, j, k); } else { GrownBetween(logs, k, j); }
    assert UniqueIds(logs(later));
  }

  /** An event whose fields the client refuses. */
  predicate Unreadable(e: AuditEvent) {
    || e.eventId == "" || e.eventType == "" || e.createdAt.Naive?
    || !(e.eventClass == "control" || e.eventClass == "decision") || !(e.decision == "permit" || e.decision == "deny")
  }

  /** The selected event at its position, with its own id and its time. */
  predicate Reports(log: seq<AuditEvent>, workspace: string, f: Filter, e: ReportEvent) {
    && 1 <= e.sequence <= |log| && Selected(log[e.sequence - 1], workspace, f) && e.payload == log[e.sequence - 1]
    && e.eventId == e.payload.eventId && e.payload.createdAt == Aware(e.createdAt)
  }

  /** What a report is, event by event: it is refused exactly for a malformed filter, it cannot be read exactly
      when a selected event is unreadable, and else it has each selected event under its own id, time and place. */
  lemma ReportIsTheSelection(log: seq<AuditEvent>, workspace: string, f: Filter)
    ensures var r := Report(log, workspace, f);
      && (r == Err(Rejected) <==> Malformed(f))
      && (r == Err(InvalidEvents) <==>
            && !Malformed(f)
            && exists p | 0 <= p < |log| :: Selected(log[p], workspace, f) && Unreadable(log[p]))
      && (r.Err? ==> r.error.Rejected? || r.error.InvalidEvents?)
    ensures var r := Report(log, workspace, f);
      r.Ok? ==> forall e :: e in r.value <==> Reports(log, workspace, f, e)
  {
    hide RowsUpTo;
    hide Selected;
    hide ParsePage;
    var rows := History(log, workspace, f);
    forall row ensures row in rows <==>
      1 <= row.sequence <= |log| && row.event == log[row.sequence - 1] && Selected(row.event, workspace, f)
    {
      ListedExactly(log, workspace, f, row);
    }
    if p :| 0 <= p < |log| && Selected(log[p], workspace, f) && Unreadable(log[p]) {
      assert Row(log[p], p + 1) in rows;
    }
    var events := ParsePage(rows);
    if events.Some? {
      forall e ensures e in events.value <==> exists row | row in rows :: Parse(row) == Some(e) {
        if e in events.value {
          var i :| 0 <= i < |events.value| && events.value[i] == e;
          assert rows[i] in rows && Parse(rows[i]) == Some(e);
        }
        if row :| row in rows && Parse(row) == Some(e) {
          var i :| 0 <= i < |rows| && rows[i] == row;
          assert Parse(rows[i]) == Some(events.value[i]);
        }
      }
      ReadBack(log, workspace, f, rows, events.value);
    }
  }

  lemma ReadBack(log: seq<AuditEvent>, workspace: string, f: Filter, rows: seq<Row>, events: seq<ReportEvent>)
    requires forall row :: row in rows <==>
      1 <= row.sequence <= |log| && row.event == log[row.sequence - 1] && Selected(row.event, workspace, f)
    requires forall row | row in rows :: Parse(row).Some?
    requires forall e :: e in events <==> exists row | row in rows :: Parse(row) == Some(e)
    ensures forall e :: e in events <==> Reports(log, workspace, f, e)
  {
    hide Selected;
    forall e | Reports(log, workspace, f, e) ensures e in events {
      var row := Row(log[e.sequence - 1], e.sequence);
      assert row in rows && Parse(row) == Some(e);
    }
  }

  function ByRequest(id: string): Filter { NoFilter().(requestId := Some(id)) }

  function ByGrant(ref: string): Filter { NoFilter().(grantRef := Some(ref)) }

  /** A fetched grant request: its record, and the reference of the grant it led to. */
  datatype FetchedRequest = FetchedRequest(body: string, issuedGrantRef: Option<string>)

  datatype GrantReport = GrantReport(request: string, grant: Option<string>, timeline: seq<ReportEvent>)

  datatype ReportError = RequestNotFetched | GrantNotFetched | Pagination(why: PaginationError)

  /** What a report of one growing log is: its events in strictly increasing sequence. */
  lemma ReportInSequence(log: seq<AuditEvent>, workspace: string, f: Filter)
    requires Report(log, workspace, f).Ok?
    ensures InSequence(Report(log, workspace, f).value)
  {
    hide RowsUpTo;
    var rows, events := History(log, workspace, f), Report(log, workspace, f).value;
    RowsAreTheSelectedEvents(log, workspace, f, |log|);
    forall i, j | 0 <= i < j < |events| ensures events[i].sequence < events[j].sequence {
      assert Parse(rows[i]) == Some(events[i]) && Parse(rows[j]) == Some(events[j]);
    }
  }

  /** The report of a grant request: its own history and, if it led to a grant, that grant's history fetched later.
      A record that cannot be fetched or a history that cannot be read ends it; the merge never does. */
  method GrantRequestReport(logs: nat -> seq<AuditEvent>, later: nat, workspace: string, id: string,
                            request: Option<FetchedRequest>, grants: string -> Option<string>)
    returns (r: Result<GrantReport, ReportError>)
    requires Growing(logs)
    ensures var own := Report(logs(0), workspace, ByRequest(id));
      if request.None? then r == Err(RequestNotFetched)
      else if own.Err? then r == Err(Pagination(own.error))
      else if request.value.issuedGrantRef.None? || request.value.issuedGrantRef == Some("") then
        r == Ok(GrantReport(request.value.body, None, own.value))
      else
        var ref := request.value.issuedGrantRef.value;
        var grant := Report(logs(later), workspace, ByGrant(ref));
        if grants(ref).None? then r == Err(GrantNotFetched)
        else if grant.Err? then r == Err(Pagination(grant.error))
        else
          && r.Ok? && r.value.request == request.value.body && r.value.grant == grants(ref)
          && forall e :: e in r.value.timeline <==> e in own.value || e in grant.value
    ensures r.Ok? ==> InSequence(r.value.timeline)
  {
    hide Report;
    hide Clash;
    hide InSequence;
    if request.None? { return Err(RequestNotFetched); }
    var own := CompleteAuditEvents(logs, workspace, ByRequest(id));
    if own.Err? { return Err(Pagination(own.error)); }
    ReportInSequence(logs(0), workspace, ByRequest(id));
    if request.value.issuedGrantRef.None? || request.value.issuedGrantRef.value == "" {
      return Ok(GrantReport(request.value.body, None, own.value));
    }
    var ref := request.value.issuedGrantRef.value;
    var record := grants(ref);
    if record.None? { return Err(GrantNotFetched); }
    var since := k requires k >= 0 => logs(later + k);
    assert Growing(since) by { StillGrowing(logs, later, since); }
    var grant := CompleteAuditEvents(since, workspace, ByGrant(ref));
    if grant.Err? { return Err(Pagination(grant.error)); }
    HistoriesAgree(logs, later, workspace, ByRequest(id), ByGrant(ref));
    var merged := MergeAuditEventStreams([own.value, grant.value]);
    return Ok(GrantReport(request.value.body, record, merged.value));
  }

  /** Two reports of one growing log, the second taken later, can be merged. */
  lemma HistoriesAgree(logs: nat -> seq<AuditEvent>, later: nat, workspace: string, f: Filter, g: Filter)
    requires Growing(logs) && Report(logs(0), workspace, f).Ok? && Report(logs(later), workspace, g).Ok?
    ensures var (own, other) := (Report(logs(0), workspace, f).value, Report(logs(later), workspace, g).value);
      Joined([own, other]) == own + other && Consistent(own + other)
  {
    hide Report;
    hide Clash;
    ReportsAgree(logs, 0, 0, workspace, f, f);
    ReportsAgree(logs, 0, later, workspace, f, g);
    ReportsAgree(logs, later, 0, workspace, g, f);
    ReportsAgree(logs, later, later, workspace, g, g);
    JoinedPair(Report(logs(0), workspace, f).value, Report(logs(later), workspace, g).value);
  }

  lemma JoinedPair(a: seq<ReportEvent>, b: seq<ReportEvent>)
    ensures Joined([a, b]) == a + b
  {
    assert [a, b][..1] == [a] && [a][..0] == [];
    assert Joined([a]) == Joined([]) + a == a;
  }

  lemma StillGrowing(logs: nat -> seq<AuditEvent>, later: nat, since: nat -> seq<AuditEvent>)
    requires Growing(logs) && forall k: nat :: since(k) == logs(later + k)
    ensures Growing(since)
  {
    forall k: nat ensures since(k) <= since(k + 1) && UniqueIds(since(k)) {
      assert logs(later + k) <= logs(later + k + 1) && UniqueIds(logs(later + k));
    }
  }
}
