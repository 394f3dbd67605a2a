/** The audit log as the service pages it out: filtering, cursors and one page per request. */
module AuditLog {
  import opened Common

  /** A creation time with or without a UTC offset. */
  datatype Timestamp = Aware(utc: int) | Naive(local: int)

  datatype AuditEvent = AuditEvent(
    eventId: string, eventType: string, eventClass: string, decision: string, workspaceId: string,
    agentId: string, grantId: string, grantRef: string, resource: string, boundaryId: Option<string>,
    createdAt: Timestamp, enforcingPrincipal: Option<string>, reasonCode: Option<string>,
    subjectTokenVerified: bool)

  datatype Filter = Filter(
    eventClass: Option<string>, eventType: Option<string>, grantRef: Option<string>, boundaryId: Option<string>,
    agentId: Option<string>, requestId: Option<string>, reasonCode: Option<string>,
    enforcingPrincipal: Option<string>, subjectTokenVerified: Option<bool>)
  {
    /** The request parser refuses a parameter that is present and empty, or an unknown event class. */
    predicate Acceptable() {
      && eventClass != Some("") && eventType != Some("") && grantRef != Some("") && boundaryId != Some("")
      && agentId != Some("") && requestId != Some("") && reasonCode != Some("") && enforcingPrincipal != Some("")
      && (eventClass.None? || eventClass.value in {"decision", "control"})
    }
  }

  predicate Wants<T(==)>(wanted: Option<T>, actual: T) { wanted.None? || wanted.value == actual }

  predicate WantsOptional<T(==)>(wanted: Option<T>, actual: Option<T>) { wanted.None? || wanted == actual }

  predicate Matches(e: AuditEvent, f: Filter) {
    && Wants(f.eventClass, e.eventClass) && Wants(f.agentId, e.agentId) && Wants(f.eventType, e.eventType)
    && Wants(f.grantRef, e.grantRef) && WantsOptional(f.boundaryId, e.boundaryId)
    && WantsOptional(f.reasonCode, e.reasonCode) && WantsOptional(f.enforcingPrincipal, e.enforcingPrincipal)
    && Wants(f.subjectTokenVerified, e.subjectTokenVerified)
    && (f.requestId.None? || e.resource == "grant_request/" + f.requestId.value || e.grantRef == f.requestId.value)
  }

  predicate Selected(e: AuditEvent, workspace: string, f: Filter) { e.workspaceId == workspace && Matches(e, f) }

  /** An event with its 1-based position in the log. */
  datatype Row = Row(event: AuditEvent, sequence: nat)

  predicate UniqueIds(log: seq<AuditEvent>) {
    forall i, j | 0 <= i < j < |log| :: log[i].eventId != log[j].eventId
  }

  /** The selected rows among the first n events, in log order. */
  function RowsUpTo(log: seq<AuditEvent>, workspace: string, f: Filter, n: nat): seq<Row>
    requires n <= |log|
  {
    if n == 0 then []
    else RowsUpTo(log, workspace, f, n - 1) + if Selected(log[n - 1], workspace, f) then [Row(log[n - 1], n)] else []
  }

  /** The position at which an event of the workspace has this id. */
  function Position(log: seq<AuditEvent>, workspace: string, id: string, from: nat): (p: Option<nat>)
    requires from <= |log|
    ensures p.Some? ==> from < p.value <= |log|
    ensures p.Some? ==> log[p.value - 1].eventId == id && log[p.value - 1].workspaceId == workspace
    decreases |log| - from
  {
    if from == |log| then None
    else if log[from].eventId == id && log[from].workspaceId == workspace then Some(from + 1)
    else Position(log, workspace, id, from + 1)
  }

  function LastOf<T>(s: seq<T>, limit: nat): seq<T> {
    if |s| <= limit then s else s[|s| - limit..]
  }

  /** list_filtered with cursors; None for an invalid cursor. */
  function ListFiltered(log: seq<AuditEvent>, workspace: string, f: Filter, snapshot: Option<string>,
                        before: Option<string>, limit: nat): Option<seq<Row>>
  {
    var snapshotAt := if snapshot.None? then None else Position(log, workspace, snapshot.value, 0);
    var beforeAt := if before.None? then None else Position(log, workspace, before.value, 0);
    if before.Some? && snapshot.None? then None
    else if (snapshot.Some? && snapshotAt.None?) || (before.Some? && beforeAt.None?) then None
    else if snapshotAt.Some? && beforeAt.Some? && beforeAt.value > snapshotAt.value then None
    else
      var snapshotBound := if snapshotAt.Some? then snapshotAt.value else |log|;
      var beforeBound := if beforeAt.Some? then beforeAt.value else |log| + 1;
      var bound := if snapshotBound < beforeBound then snapshotBound else beforeBound - 1;
      Some(LastOf(RowsUpTo(log, workspace, f, bound), limit))
  }

  datatype Page = Page(rows: seq<Row>, snapshotId: Option<string>, nextBeforeId: Option<string>)

  /** audit_event_sequences: the position recorded for an id, where a later event would replace an earlier one. */
  function SequenceOf(log: seq<AuditEvent>, workspace: string, id: string): Option<nat> {
    if log == [] then None
    else
      var last := log[|log| - 1];
      if last.workspaceId == workspace && last.eventId == id then Some(|log|)
      else SequenceOf(log[..|log| - 1], workspace, id)
  }

  /** The rows with the sequences recorded for their ids; None when one is missing. */
  function Sequenced(log: seq<AuditEvent>, workspace: string, rows: seq<Row>): Option<seq<Row>> {
    if rows == [] then Some([])
    else
      var first := SequenceOf(log, workspace, rows[0].event.eventId);
      var rest := Sequenced(log, workspace, rows[1..]);
      if first.None? || rest.None? then None else Some([Row(rows[0].event, first.value)] + rest.value)
  }

  /** One paginated request; None is an error response. The rows are listed from the log as it stands, their
      sequences read afterwards, from a log that may have grown. */
  function ServePage(log: seq<AuditEvent>, later: seq<AuditEvent>, workspace: string, f: Filter,
                     snapshot: Option<string>, before: Option<string>, limit: nat): Option<Page>
    requires limit > 0
  {
    if !f.Acceptable() || snapshot == Some("") || before == Some("") then None
    else
      var found := ListFiltered(log, workspace, f, snapshot, before, limit + 1);
      if found.None? then None
      else
        var hasMore := |found.value| > limit;
        var events := LastOf(found.value, limit);
        var rows := Sequenced(later, workspace, events);
        var snapshotId := if snapshot.None? && events != [] then Some(events[|events| - 1].event.eventId) else snapshot;
        if rows.None? then None
        else Some(Page(rows.value, snapshotId, if hasMore then Some(events[0].event.eventId) else None))
  }

  // ---- facts about rows ---------------------------------------------------------------------

  /** Exactly the selected events, each with its own position, in increasing position. */
  lemma {:induction false} RowsAreTheSelectedEvents(log: seq<AuditEvent>, workspace: string, f: Filter, n: nat)
    requires n <= |log|
    ensures var rows := RowsUpTo(log, workspace, f, n);
      && (forall p: nat, e :: Row(e, p) in rows <==> 1 <= p <= n && e == log[p - 1] && Selected(e, workspace, f))
      && (forall i, j | 0 <= i < j < |rows| :: rows[i].sequence < rows[j].sequence)
  {
    if n > 0 { RowsAreTheSelectedEvents(log, workspace, f, n - 1); }
  }

  /** Rows below a position do not change when the log grows. */
  lemma {:induction false} RowsOfLongerLog(log: seq<AuditEvent>, longer: seq<AuditEvent>, workspace: string, f: Filter,
                                           n: nat)
    requires n <= |log| && log <= longer
    ensures RowsUpTo(longer, workspace, f, n) == RowsUpTo(log, workspace, f, n)
  {
    if n > 0 { RowsOfLongerLog(log, longer, workspace, f, n - 1); }
  }

  /** The rows strictly before a row of the list are its predecessors in the list. */
  lemma {:induction false} RowsBeforeRow(log: seq<AuditEvent>, workspace: string, f: Filter, n: nat, m: nat)
    requires n <= |log| && m < |RowsUpTo(log, workspace, f, n)|
    ensures var rows := RowsUpTo(log, workspace, f, n);
      1 <= rows[m].sequence <= n && RowsUpTo(log, workspace, f, rows[m].sequence - 1) == rows[..m]
  {
    if n > 0 {
      var shorter := RowsUpTo(log, workspace, f, n - 1);
      if m < |shorter| {
        RowsBeforeRow(log, workspace, f, n - 1, m);
        assert RowsUpTo(log, workspace, f, n)[..m] == shorter[..m];
      } else {
        assert RowsUpTo(log, workspace, f, n)[..m] == shorter;
      }
    }
  }

  lemma {:induction false} PositionIsUnique(log: seq<AuditEvent>, workspace: string, p: nat, from: nat)
    requires UniqueIds(log) && from < p <= |log| && log[p - 1].workspaceId == workspace
    ensures Position(log, workspace, log[p - 1].eventId, from) == Some(p)
    decreases p - from
  {
    if from + 1 < p { PositionIsUnique(log, workspace, p, from + 1); }
  }

  /** The row a cursor names is found again at its own position in any longer log. */
  lemma CursorPosition(log: seq<AuditEvent>, longer: seq<AuditEvent>, workspace: string, f: Filter, m: nat)
    requires log <= longer && UniqueIds(longer) && m < |RowsUpTo(log, workspace, f, |log|)|
    ensures var row := RowsUpTo(log, workspace, f, |log|)[m];
      && 1 <= row.sequence <= |log| && row.event == longer[row.sequence - 1]
      && Position(longer, workspace, row.event.eventId, 0) == Some(row.sequence)
  {
    var row := RowsUpTo(log, workspace, f, |log|)[m];
    RowsAreTheSelectedEvents(log, workspace, f, |log|);
    assert Row(row.event, row.sequence) in RowsUpTo(log, workspace, f, |log|);
    PositionIsUnique(longer, workspace, row.sequence, 0);
  }

  lemma ListedBefore(log: seq<AuditEvent>, longer: seq<AuditEvent>, workspace: string, f: Filter, m: nat, limit: nat)
    requires log <= longer && UniqueIds(longer) && m < |RowsUpTo(log, workspace, f, |log|)|
    ensures var rows := RowsUpTo(log, workspace, f, |log|);
      ListFiltered(longer, workspace, f, Some(rows[|rows| - 1].event.eventId), Some(rows[m].event.eventId), limit)
      == Some(LastOf(rows[..m], limit))
  {
    hide UniqueIds;
    hide Selected;
    hide LastOf;
    hide Position;
    var rows := RowsUpTo(log, workspace, f, |log|);
    CursorPosition(log, longer, workspace, f, m);
    CursorPosition(log, longer, workspace, f, |rows| - 1);
    RowsIncrease(log, workspace, f, m);
    RowsBeforeRow(log, workspace, f, |log|, m);
    RowsOfLongerLog(log, longer, workspace, f, rows[m].sequence - 1);
  }

  lemma RowsIncrease(log: seq<AuditEvent>, workspace: string, f: Filter, m: nat)
    requires m < |RowsUpTo(log, workspace, f, |log|)|
    ensures var rows := RowsUpTo(log, workspace, f, |log|); rows[m].sequence <= rows[|rows| - 1].sequence
  {
    RowsAreTheSelectedEvents(log, workspace, f, |log|);
  }

  // ---- sequences ----------------------------------------------------------------------------

  lemma {:induction false} SequenceIsPosition(log: seq<AuditEvent>, workspace: string, p: nat)
    requires UniqueIds(log) && 1 <= p <= |log| && log[p - 1].workspaceId == workspace
    ensures SequenceOf(log, workspace, log[p - 1].eventId) == Some(p)
  {
    if p < |log| {
      assert log[..|log| - 1][p - 1] == log[p - 1];
      SequenceIsPosition(log[..|log| - 1], workspace, p);
    }
  }

  /** The sequences of a page, read after the page itself and perhaps from a longer log, are its rows' positions. */
  lemma SequencesAreStable(log: seq<AuditEvent>, longer: seq<AuditEvent>, workspace: string, f: Filter, n: nat,
                           row: Row)
    requires log <= longer && UniqueIds(longer) && n <= |log| && row in RowsUpTo(log, workspace, f, n)
    ensures SequenceOf(longer, workspace, row.event.eventId) == Some(row.sequence)
  {
    RowsAreTheSelectedEvents(log, workspace, f, n);
    assert Row(row.event, row.sequence) in RowsUpTo(log, workspace, f, n);
    SequenceIsPosition(longer, workspace, row.sequence);
  }

  lemma {:induction false} PageSequences(log: seq<AuditEvent>, later: seq<AuditEvent>, workspace: string, f: Filter,
                                         rows: seq<Row>)
    requires log <= later && UniqueIds(later) && forall row | row in rows :: row in RowsUpTo(log, workspace, f, |log|)
    ensures Sequenced(later, workspace, rows) == Some(rows)
  {
    hide UniqueIds;
    hide RowsUpTo;
    hide SequenceOf;
    if rows != [] {
      SequencesAreStable(log, later, workspace, f, |log|, rows[0]);
      PageSequences(log, later, workspace, f, rows[1..]);
      assert rows == [rows[0]] + rows[1..];
    }
  }

  // ---- pages --------------------------------------------------------------------------------

  /** What the service answers at any later time to the cursors of the rows of an earlier log: the page of up
      to `limit` rows that ends just before row m, whenever the sequences are read. */
  lemma ContinuationPage(log: seq<AuditEvent>, longer: seq<AuditEvent>, later: seq<AuditEvent>, workspace: string,
                         f: Filter, m: nat, limit: nat)
    requires log <= longer <= later && UniqueIds(longer) && UniqueIds(later) && f.Acceptable() && limit > 0
    requires var rows := RowsUpTo(log, workspace, f, |log|);
      0 < m < |rows| && rows[m].event.eventId != "" && rows[|rows| - 1].event.eventId != ""
    ensures var rows := RowsUpTo(log, workspace, f, |log|);
      var snapshot := Some(rows[|rows| - 1].event.eventId);
      ServePage(longer, later, workspace, f, snapshot, Some(rows[m].event.eventId), limit) ==
        if m > limit then Some(Page(rows[m - limit..m], snapshot, Some(rows[m - limit].event.eventId)))
        else Some(Page(rows[..m], snapshot, None))
  {
    hide ListFiltered;
    hide UniqueIds;
    hide RowsUpTo;
    hide Sequenced;
    var rows := RowsUpTo(log, workspace, f, |log|);
    ListedBefore(log, longer, workspace, f, m, limit + 1);
    var page := if m > limit then rows[m - limit..m] else rows[..m];
    PageSequences(log, later, workspace, f, page);
    if m > limit {
      assert LastOf(rows[..m], limit + 1) == rows[m - limit - 1..m];
      assert LastOf(rows[m - limit - 1..m], limit) == page;
    }
  }

  /** The first page ends the log as it stands, whenever the sequences are read. */
  lemma FirstPage(log: seq<AuditEvent>, later: seq<AuditEvent>, workspace: string, f: Filter, limit: nat)
    requires log <= later && UniqueIds(later) && f.Acceptable() && limit > 0
    ensures var rows := RowsUpTo(log, workspace, f, |log|);
      var snapshot := if rows == [] then None else Some(rows[|rows| - 1].event.eventId);
      ServePage(log, later, workspace, f, None, None, limit) ==
        if |rows| > limit then Some(Page(rows[|rows| - limit..], snapshot, Some(rows[|rows| - limit].event.eventId)))
        else Some(Page(rows, snapshot, None))
  {
    hide RowsUpTo;
    hide Position;
    hide UniqueIds;
    hide Sequenced;
    var rows := RowsUpTo(log, workspace, f, |log|);
    PageSequences(log, later, workspace, f, LastOf(rows, limit));
    if |rows| > limit {
      assert LastOf(LastOf(rows, limit + 1), limit) == LastOf(rows, limit);
    }
  }

  // ---- what a request selects ---------------------------------------------------------------

  function NoFilter(): Filter { Filter(None, None, None, None, None, None, None, None, None) }

  lemma ListedExactly(log: seq<AuditEvent>, workspace: string, f: Filter, row: Row)
    ensures row in RowsUpTo(log, workspace, f, |log|) <==>
      1 <= row.sequence <= |log| && row.event == log[row.sequence - 1] && Selected(row.event, workspace, f)
  {
    RowsAreTheSelectedEvents(log, workspace, f, |log|);
    assert row == Row(row.event, row.sequence);
  }

  /** Without a filter the whole workspace is listed, and each filter narrows the listing by its own field alone;
      the request id is looked for in two places. */
  lemma EachFilterNarrows(log: seq<AuditEvent>, workspace: string, f: Filter, row: Row, wanted: string, flag: bool)
    ensures row in RowsUpTo(log, workspace, NoFilter(), |log|) <==>
      1 <= row.sequence <= |log| && row.event == log[row.sequence - 1] && row.event.workspaceId == workspace
    ensures row in RowsUpTo(log, workspace, f.(eventClass := Some(wanted)), |log|) <==>
      row in RowsUpTo(log, workspace, f.(eventClass := None), |log|) && row.event.eventClass == wanted
    ensures row in RowsUpTo(log, workspace, f.(eventType := Some(wanted)), |log|) <==>
      row in RowsUpTo(log, workspace, f.(eventType := None), |log|) && row.event.eventType == wanted
    ensures row in RowsUpTo(log, workspace, f.(grantRef := Some(wanted)), |log|) <==>
      row in RowsUpTo(log, workspace, f.(grantRef := None), |log|) && row.event.grantRef == wanted
    ensures row in RowsUpTo(log, workspace, f.(boundaryId := Some(wanted)), |log|) <==>
      row in RowsUpTo(log, workspace, f.(boundaryId := None), |log|) && row.event.boundaryId == Some(wanted)
    ensures row in RowsUpTo(log, workspace, f.(agentId := Some(wanted)), |log|) <==>
      row in RowsUpTo(log, workspace, f.(agentId := None), |log|) && row.event.agentId == wanted
    ensures row in RowsUpTo(log, workspace, f.(requestId := Some(wanted)), |log|) <==>
      && row in RowsUpTo(log, workspace, f.(requestId := None), |log|)
      && (row.event.resource == "grant_request/" + wanted || row.event.grantRef == wanted)
    ensures row in RowsUpTo(log, workspace, f.(reasonCode := Some(wanted)), |log|) <==>
      row in RowsUpTo(log, workspace, f.(reasonCode := None), |log|) && row.event.reasonCode == Some(wanted)
    ensures row in RowsUpTo(log, workspace, f.(enforcingPrincipal := Some(wanted)), |log|) <==>
      && row in RowsUpTo(log, workspace, f.(enforcingPrincipal := None), |log|)
      && row.event.enforcingPrincipal == Some(wanted)
    ensures row in RowsUpTo(log, workspace, f.(subjectTokenVerified := Some(flag)), |log|) <==>
      && row in RowsUpTo(log, workspace, f.(subjectTokenVerified := None), |log|)
      && row.event.subjectTokenVerified == flag
  {
    hide RowsUpTo;
    ListedExactly(log, workspace, NoFilter(), row);
    ListedExactly(log, workspace, f.(eventClass := Some(wanted)), row);
    ListedExactly(log, workspace, f.(eventClass := None), row);
    ListedExactly(log, workspace, f.(eventType := Some(wanted)), row);
    ListedExactly(log, workspace, f.(eventType := None), row);
    ListedExactly(log, workspace, f.(grantRef := Some(wanted)), row);
    ListedExactly(log, workspace, f.(grantRef := None), row);
    ListedExactly(log, workspace, f.(boundaryId := Some(wanted)), row);
    ListedExactly(log, workspace, f.(boundaryId := None), row);
    ListedExactly(log, workspace, f.(agentId := Some(wanted)), row);
    ListedExactly(log, workspace, f.(agentId := None), row);
    ListedExactly(log, workspace, f.(requestId := Some(wanted)), row);
    ListedExactly(log, workspace, f.(requestId := None), row);
    ListedExactly(log, workspace, f.(reasonCode := Some(wanted)), row);
    ListedExactly(log, workspace, f.(reasonCode := None), row);
    ListedExactly(log, workspace, f.(enforcingPrincipal := Some(wanted)), row);
    ListedExactly(log, workspace, f.(enforcingPrincipal := None), row);
    ListedExactly(log, workspace, f.(subjectTokenVerified := Some(flag)), row);
    ListedExactly(log, workspace, f.(subjectTokenVerified := None), row);
  }

  // ---- what a request is answered -----------------------------------------------------------

  /** A filter the request parser refuses. */
  predicate Malformed(f: Filter) {
    || f.eventType == Some("") || f.grantRef == Some("") || f.boundaryId == Some("") || f.agentId == Some("")
    || f.requestId == Some("") || f.reasonCode == Some("") || f.enforcingPrincipal == Some("")
    || !(f.eventClass == None || f.eventClass == Some("decision") || f.eventClass == Some("control"))
  }

  predicate At(log: seq<AuditEvent>, workspace: string, id: string, p: nat) {
    1 <= p <= |log| && log[p - 1].eventId == id && log[p - 1].workspaceId == workspace
  }

  ghost predicate Named(log: seq<AuditEvent>, workspace: string, id: string) {
    exists p: nat :: At(log, workspace, id, p)
  }

  /** Cursors that are refused: a cursor without its snapshot, an id that is empty or names no event of the
      workspace, or a cursor after its snapshot. */
  ghost predicate Invalid(log: seq<AuditEvent>, workspace: string, snapshot: Option<string>, before: Option<string>) {
    || (before.Some? && snapshot.None?) || snapshot == Some("") || before == Some("")
    || (snapshot.Some? && !Named(log, workspace, snapshot.value))
    || (before.Some? && !Named(log, workspace, before.value))
    || (snapshot.Some? && before.Some?
        && exists p: nat, q: nat ::
          At(log, workspace, snapshot.value, p) && At(log, workspace, before.value, q) && p < q)
  }

  lemma {:induction false} FoundExactly(log: seq<AuditEvent>, workspace: string, id: string, from: nat)
    requires from <= |log|
    ensures Position(log, workspace, id, from).Some? <==> exists p: nat | from < p :: At(log, workspace, id, p)
    decreases |log| - from
  {
    if from < |log| {
      FoundExactly(log, workspace, id, from + 1);
      if At(log, workspace, id, from + 1) { assert from < from + 1; }
    }
  }

  lemma PositionExactly(log: seq<AuditEvent>, workspace: string, id: string)
    requires UniqueIds(log)
    ensures Position(log, workspace, id, 0).Some? <==> Named(log, workspace, id)
    ensures forall p: nat :: At(log, workspace, id, p) <==> Position(log, workspace, id, 0) == Some(p)
  {
    FoundExactly(log, workspace, id, 0);
    forall p: nat | At(log, workspace, id, p) ensures Position(log, workspace, id, 0) == Some(p) {
      PositionIsUnique(log, workspace, p, 0);
    }
  }

  lemma UniqueBefore(log: seq<AuditEvent>, later: seq<AuditEvent>)
    requires log <= later && UniqueIds(later)
    ensures UniqueIds(log)
  {
  }

  lemma RowsOfThePast(log: seq<AuditEvent>, workspace: string, f: Filter, n: nat, row: Row)
    requires n <= |log| && row in RowsUpTo(log, workspace, f, n)
    ensures row in RowsUpTo(log, workspace, f, |log|)
  {
    RowsAreTheSelectedEvents(log, workspace, f, n);
    ListedExactly(log, workspace, f, row);
    assert row == Row(row.event, row.sequence);
  }

  /** Where a listing ends: before its cursor, at its snapshot, or at the end of the log. */
  predicate EndsAt(log: seq<AuditEvent>, workspace: string, snapshot: Option<string>, before: Option<string>, n: nat) {
    if before.Some? then At(log, workspace, before.value, n + 1)
    else if snapshot.Some? then At(log, workspace, snapshot.value, n)
    else n == |log|
  }

  lemma ListingExactly(log: seq<AuditEvent>, workspace: string, f: Filter, snapshot: Option<string>,
                       before: Option<string>, limit: nat) returns (n: nat)
    requires UniqueIds(log)
    ensures n <= |log|
    ensures snapshot != Some("") && before != Some("") ==>
      (ListFiltered(log, workspace, f, snapshot, before, limit).None? <==> Invalid(log, workspace, snapshot, before))
    ensures ListFiltered(log, workspace, f, snapshot, before, limit).Some? ==>
      && EndsAt(log, workspace, snapshot, before, n)
      && ListFiltered(log, workspace, f, snapshot, before, limit) ==
         Some(LastOf(RowsUpTo(log, workspace, f, n), limit))
  {
    hide RowsUpTo;
    hide UniqueIds;
    hide LastOf;
    hide Position;
    if snapshot.Some? { PositionExactly(log, workspace, snapshot.value); }
    if before.Some? { PositionExactly(log, workspace, before.value); }
    var snapshotAt := if snapshot.None? then None else Position(log, workspace, snapshot.value, 0);
    var beforeAt := if before.None? then None else Position(log, workspace, before.value, 0);
    n := if beforeAt.Some? then beforeAt.value - 1 else if snapshotAt.Some? then snapshotAt.value else |log|;
  }

  /** A request is refused exactly for a malformed filter or invalid cursors. */
  lemma RefusedExactly(log: seq<AuditEvent>, later: seq<AuditEvent>, workspace: string, f: Filter,
                       snapshot: Option<string>, before: Option<string>, limit: nat)
    requires log <= later && UniqueIds(later) && limit > 0
    ensures ServePage(log, later, workspace, f, snapshot, before, limit).None? <==>
      Malformed(f) || Invalid(log, workspace, snapshot, before)
  {
    hide RowsUpTo;
    hide Sequenced;
    hide ListFiltered;
    hide Named;
    hide At;
    hide UniqueIds;
    UniqueBefore(log, later);
    var n := ListingExactly(log, workspace, f, snapshot, before, limit + 1);
    LastSequenced(log, later, workspace, f, n, limit);
  }

  lemma LastSequenced(log: seq<AuditEvent>, later: seq<AuditEvent>, workspace: string, f: Filter, n: nat, limit: nat)
    requires log <= later && UniqueIds(later) && limit > 0 && n <= |log|
    ensures var all := RowsUpTo(log, workspace, f, n);
      && LastOf(LastOf(all, limit + 1), limit) == LastOf(all, limit)
      && Sequenced(later, workspace, LastOf(all, limit)) == Some(LastOf(all, limit))
  {
    hide RowsUpTo;
    hide Sequenced;
    hide UniqueIds;
    var all := RowsUpTo(log, workspace, f, n);
    forall row | row in LastOf(all, limit) ensures row in RowsUpTo(log, workspace, f, |log|) {
      RowsOfThePast(log, workspace, f, n, row);
    }
    PageSequences(log, later, workspace, f, LastOf(all, limit));
  }

  /** Any other request is answered with the last `limit` selected events of its listing. There is a next cursor
      exactly when more are left, and the snapshot stays or is the last event listed. */
  lemma ServedExactly(log: seq<AuditEvent>, later: seq<AuditEvent>, workspace: string, f: Filter,
                      snapshot: Option<string>, before: Option<string>, limit: nat, n: nat)
    requires log <= later && UniqueIds(later) && limit > 0
    requires !Malformed(f) && !Invalid(log, workspace, snapshot, before) && EndsAt(log, workspace, snapshot, before, n)
    ensures n <= |log| && ServePage(log, later, workspace, f, snapshot, before, limit).Some?
    ensures var page := ServePage(log, later, workspace, f, snapshot, before, limit).value;
      var (all, rows) := (RowsUpTo(log, workspace, f, n), page.rows);
      && rows == (if |all| > limit then all[|all| - limit..] else all)
      && page.nextBeforeId == (if |all| > limit then Some(rows[0].event.eventId) else None)
      && (snapshot.Some? ==> page.snapshotId == snapshot)
      && (snapshot.None? && rows == [] ==> page.snapshotId == None)
      && (snapshot.None? && rows != [] ==> page.snapshotId == Some(rows[|rows| - 1].event.eventId))
  {
    hide RowsUpTo;
    hide Sequenced;
    hide ListFiltered;
    hide Named;
    hide UniqueIds;
    UniqueBefore(log, later);
    var end := ListingExactly(log, workspace, f, snapshot, before, limit + 1);
    OneEnd(log, workspace, snapshot, before, n, end);
    LastSequenced(log, later, workspace, f, n, limit);
  }

  lemma OneEnd(log: seq<AuditEvent>, workspace: string, snapshot: Option<string>, before: Option<string>, n: nat,
               m: nat)
    requires UniqueIds(log)
    requires EndsAt(log, workspace, snapshot, before, n) && EndsAt(log, workspace, snapshot, before, m)
    ensures n == m <= |log|
  {
  }
}
