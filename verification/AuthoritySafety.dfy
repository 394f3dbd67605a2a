/** Every step keeps the invariant of AuthorityRuns. */
module AuthoritySafety {
  import opened Common
  import opened Scope
  import opened Authority
  import opened AuthorityRuns

  // ---- steps that only move a call ----------------------------------------------------------

  lemma NoHolderMoves(w: World, c: nat, pc: Pc, id: string)
    requires pc.Holds() == w.PcOf(c).Holds()
    ensures NoHolder(w.Go(c, pc).callers, id) <==> NoHolder(w.callers, id)
  {
    var after := w.Go(c, pc).callers;
    if NoHolder(after, id) {
      forall d | d in w.callers ensures w.callers[d].Holds() != Some(id) { assert d in after; }
    }
  }

  lemma RequestMoves(w: World, c: nat, pc: Pc, id: string)
    requires id in w.store.requests && RequestOk(w, id) && pc.Holds() == w.PcOf(c).Holds()
    ensures RequestOk(w.Go(c, pc), id)
  {
    hide NoHolder;
    hide Undecided;
    hide CreatedOk;
    NoHolderMoves(w, c, pc, id);
  }

  lemma IssuedMoves(w: World, c: nat, pc: Pc, i: Issuance)
    requires IssuedOk(w, i) && pc.Holds() == w.PcOf(c).Holds()
    ensures IssuedOk(w.Go(c, pc), i)
  {
    hide NoHolder;
    hide Within;
    hide AllValid;
    hide Covers;
    if i.origin.ForRequest? { NoHolderMoves(w, c, pc, i.origin.request.id); }
  }

  lemma PcMoves(w: World, c: nat, pc: Pc, other: Pc)
    requires PcOk(w, other)
    ensures PcOk(w.Go(c, pc), other)
  {
    hide Within;
    hide AllValid;
    hide Covers;
  }

  lemma Moves(w: World, c: nat, pc: Pc)
    requires Inv(w) && PcOk(w, pc) && pc.Holds() == w.PcOf(c).Holds()
    ensures Inv(w.Go(c, pc))
  {
    hide PcOk;
    hide RequestOk;
    hide IssuedOk;
    hide IssuedApart;
    var n := w.Go(c, pc);
    forall id | id in n.store.requests ensures RequestOk(n, id) { RequestMoves(w, c, pc, id); }
    forall d | d in n.callers ensures PcOk(n, n.callers[d]) {
      PcMoves(w, c, pc, n.callers[d]);
    }
    forall i | i in n.issued ensures IssuedOk(n, i) { IssuedMoves(w, c, pc, i); }
  }

  // ---- steps that only add to what is held --------------------------------------------------

  predicate SameDecisions(w: World, n: World) {
    && n.store.requests == w.store.requests && n.store.grants == w.store.grants && n.callers == w.callers
    && n.issued == w.issued && n.created == w.created && w.boundsHeld <= n.boundsHeld && w.rulesHeld <= n.rulesHeld
  }

  lemma IssuanceStaysOk(w: World, n: World, i: Issuance)
    requires IssuanceOk(w, i) && w.boundsHeld <= n.boundsHeld && w.rulesHeld <= n.rulesHeld
    requires forall id | id in w.created :: id in n.created && n.created[id] == w.created[id]
    ensures IssuanceOk(n, i)
  {
    hide Within;
    hide AllValid;
    hide Covers;
  }

  lemma PcStaysHeld(w: World, n: World, pc: Pc)
    requires SameDecisions(w, n) && PcOk(w, pc)
    ensures PcOk(n, pc)
  {
    hide IssuanceOk;
    hide Covers;
    if pc.Inserting? { IssuanceStaysOk(w, n, pc.issuance); }
  }

  lemma HeldGrows(w: World, n: World)
    requires Inv(w) && SameDecisions(w, n) && HeldOk(n)
    ensures Inv(n)
  {
    hide PcOk;
    hide IssuanceOk;
    hide IssuedApart;
    hide HeldOk;
    hide Undecided;
    hide CreatedOk;
    forall id | id in n.store.requests ensures RequestOk(n, id) { assert RequestOk(w, id); }
    forall c | c in n.callers ensures PcOk(n, n.callers[c]) { PcStaysHeld(w, n, w.callers[c]); }
    forall i | i in n.issued ensures IssuedOk(n, i) {
      assert IssuedOk(w, i);
      IssuanceStaysOk(w, n, i);
    }
  }

  // ---- steps that decide a request ----------------------------------------------------------

  /** Only request id and only caller c's hold on it change. */
  predicate OnlyThis(w: World, n: World, id: string, c: nat) {
    && n.store.grants == w.store.grants && n.issued == w.issued && n.created == w.created
    && n.boundsHeld == w.boundsHeld && n.rulesHeld == w.rulesHeld
    && n.store.bounds == w.store.bounds && n.store.rules == w.store.rules
    && id in w.store.requests && id in n.store.requests && n.store.requests.Keys == w.store.requests.Keys
    && (forall other | other in w.store.requests && other != id :: n.store.requests[other] == w.store.requests[other])
    && (forall d | d in w.callers && d != c :: d in n.callers && n.callers[d] == w.callers[d])
    && (forall d | d in n.callers && d != c :: d in w.callers)
    && c in n.callers
    && (w.PcOf(c).Holds().Some? ==> w.PcOf(c).Holds() == Some(id))
    && (n.PcOf(c).Holds().Some? ==> n.PcOf(c).Holds() == Some(id))
  }

  lemma OtherHolders(w: World, n: World, id: string, c: nat, other: string)
    requires OnlyThis(w, n, id, c) && other != id
    ensures NoHolder(n.callers, other) <==> NoHolder(w.callers, other)
  {
    if NoHolder(n.callers, other) {
      forall d | d in w.callers ensures w.callers[d].Holds() != Some(other) {
        if d != c { assert n.callers[d] == w.callers[d]; }
      }
    }
  }

  lemma OtherRequest(w: World, n: World, id: string, c: nat, other: string)
    requires OnlyThis(w, n, id, c) && other != id && other in w.store.requests && RequestOk(w, other)
    ensures RequestOk(n, other)
  {
    hide NoHolder;
    hide Undecided;
    hide CreatedOk;
    hide NoIssuance;
    OtherHolders(w, n, id, c, other);
  }

  /** A call that has nothing to do with request id, or has not claimed it. */
  lemma OtherPc(w: World, n: World, id: string, c: nat, pc: Pc)
    requires OnlyThis(w, n, id, c) && PcOk(w, pc) && pc.Holds() != Some(id)
    ensures PcOk(n, pc)
  {
    hide IssuanceOk;
    hide Covers;
    if pc.Inserting? { IssuanceStaysOk(w, n, pc.issuance); }
  }

  lemma OtherIssued(w: World, n: World, id: string, c: nat, i: Issuance)
    requires OnlyThis(w, n, id, c) && IssuedOk(w, i) && !IssuedFor(i, id)
    ensures IssuedOk(n, i)
  {
    hide IssuanceOk;
    hide NoHolder;
    IssuanceStaysOk(w, n, i);
    if i.origin.ForRequest? { OtherHolders(w, n, id, c, i.origin.request.id); }
  }

  lemma DecisionKeeps(w: World, n: World, id: string, c: nat)
    requires Inv(w) && OnlyThis(w, n, id, c) && NoIssuance(w.issued, id)
    requires forall d | d in w.callers && d != c :: w.callers[d].Holds() != Some(id)
    requires PcOk(n, n.callers[c]) && RequestOk(n, id)
    ensures Inv(n)
  {
    hide PcOk;
    hide RequestOk;
    hide IssuedOk;
    hide IssuedApart;
    forall other | other in n.store.requests ensures RequestOk(n, other) {
      if other != id { OtherRequest(w, n, id, c, other); }
    }
    forall d | d in n.callers ensures PcOk(n, n.callers[d]) {
      if d != c { OtherPc(w, n, id, c, w.callers[d]); }
    }
    forall i | i in n.issued ensures IssuedOk(n, i) { OtherIssued(w, n, id, c, i); }
  }

  /** What the winner of a decision finds. */
  lemma PendingFacts(w: World, request: GrantRequest)
    requires Inv(w) && AsCreated(w, request) && request.id in w.store.requests
    requires w.store.requests[request.id].status == Pending
    ensures NoIssuance(w.issued, request.id) && NoHolder(w.callers, request.id) && CreatedOk(request, request.id)
  {
    hide PcOk;
    hide IssuedOk;
    assert RequestOk(w, request.id);
  }

  lemma CallerOk(w: World, c: nat)
    requires Inv(w)
    ensures PcOk(w, w.PcOf(c))
  {
    hide RequestOk;
    hide IssuedOk;
    hide IssuanceOk;
  }

  lemma ClaimStep(w: World, c: nat, decider: string, why: Option<string>)
    requires Inv(w) && w.PcOf(c).Claiming?
    ensures Inv(AfterClaim(w, c, w.PcOf(c), decider, why))
  {
    hide Inv;
    hide NoHolder;
    hide NoIssuance;
    hide AllValid;
    hide Covers;
    hide IssuanceOk;
    CallerOk(w, c);
    var pc := w.PcOf(c);
    var id := pc.request.id;
    if id in w.store.requests && w.store.requests[id].status == Pending {
      PendingFacts(w, pc.request);
      var n := AfterClaim(w, c, pc, decider, why);
      HolderElsewhere(w, c, id);
      SelfHolds(n, c, id);
      DecisionKeeps(w, n, id, c);
    } else {
      Moves(w, c, Idle);
    }
  }

  lemma HolderElsewhere(w: World, c: nat, id: string)
    requires NoHolder(w.callers, id)
    ensures forall d | d in w.callers && d != c :: w.callers[d].Holds() != Some(id)
  {
  }

  lemma SelfHolds(w: World, c: nat, id: string)
    requires c in w.callers && w.callers[c].Holds() == Some(id)
    ensures !NoHolder(w.callers, id)
  {
  }

  lemma ClaimRejectionStep(w: World, c: nat, decider: string, why: Option<string>)
    requires Inv(w) && w.PcOf(c).Rejecting?
    ensures Inv(AfterClaimRejection(w, c, w.PcOf(c), decider, why))
  {
    hide Inv;
    hide NoHolder;
    hide NoIssuance;
    hide AllValid;
    hide IssuanceOk;
    CallerOk(w, c);
    var pc := w.PcOf(c);
    var id := pc.request.id;
    if id in w.store.requests && w.store.requests[id].status == Pending {
      PendingFacts(w, pc.request);
      var n := AfterClaimRejection(w, c, pc, decider, why);
      HolderElsewhere(w, c, id);
      HoldersGone(w, n, c, id);
      DecisionKeeps(w, n, id, c);
    } else {
      Moves(w, c, Idle);
    }
  }

  /** After c has let go, nobody holds the request. */
  lemma HoldersGone(w: World, n: World, c: nat, id: string)
    requires forall d | d in w.callers && d != c :: w.callers[d].Holds() != Some(id)
    requires forall d | d in n.callers && d != c :: d in w.callers && n.callers[d] == w.callers[d]
    requires c in n.callers ==> n.callers[c].Holds() != Some(id)
    ensures NoHolder(n.callers, id)
  {
  }

  lemma OnlyOneHolds(w: World, c: nat, id: string)
    requires Inv(w) && w.PcOf(c).Holds() == Some(id)
    ensures forall d | d in w.callers && d != c :: w.callers[d].Holds() != Some(id)
  {
    hide RequestsOk;
    hide CallersOk;
    hide HistoryOk;
  }

  lemma CreatedFacts(w: World, id: string)
    requires Inv(w) && id in w.created
    ensures id in w.store.requests && CreatedOk(w.created[id], id) && Undecided(w.store.requests[id], w.created[id])
  {
    hide CallersOk;
    hide HistoryOk;
    assert RequestOk(w, id);
  }

  /** A failed issuance puts back the exact record the decision started from. */
  lemma RestoreStep(w: World, c: nat)
    requires Inv(w) && w.PcOf(c).Restoring?
    ensures Inv(w.(store := UpdateRequest(w.store, w.PcOf(c).request)).Go(c, Idle))
  {
    hide Inv;
    hide NoHolder;
    hide NoIssuance;
    hide AllValid;
    CallerOk(w, c);
    var request := w.PcOf(c).request;
    CreatedFacts(w, request.id);
    OnlyOneHolds(w, c, request.id);
    var n := w.(store := UpdateRequest(w.store, request)).Go(c, Idle);
    HoldersGone(w, n, c, request.id);
    DecisionKeeps(w, n, request.id, c);
  }

  // ---- reading and checking -----------------------------------------------------------------

  lemma ReadStep(w: World, c: nat, id: string, workspace: string, matched: Option<Rule>, now: int)
    requires Inv(w) && w.PcOf(c).Holds().None?
    requires id in w.created ==> MatchOk(w, w.created[id], matched)
    ensures Inv(AfterRead(w, c, id, workspace, matched, now))
  {
    hide CallersOk;
    hide HistoryOk;
    hide Covers;
    match LookUpPending(w.store, id, workspace)
    case Err(_) => Moves(w, c, Idle);
    case Ok(request) =>
      assert RequestOk(w, id);
      Moves(w, c, Claiming(request, matched, now));
  }

  lemma ReadForRejectionStep(w: World, c: nat, id: string, workspace: string, now: int)
    requires Inv(w) && w.PcOf(c).Idle? && LookUpPending(w.store, id, workspace).Ok?
    ensures Inv(w.Go(c, Rejecting(LookUpPending(w.store, id, workspace).value, now)))
  {
    hide CallersOk;
    hide HistoryOk;
    assert RequestOk(w, id);
    Moves(w, c, Rejecting(LookUpPending(w.store, id, workspace).value, now));
  }

  lemma ReadForRulesStep(w: World, c: nat, id: string, workspace: string, now: int)
    requires Inv(w) && w.PcOf(c).Idle?
    ensures Inv(AfterReadForRules(w, c, id, workspace, now))
  {
    hide CallersOk;
    hide HistoryOk;
    if id in w.store.requests && w.store.requests[id].workspace == workspace {
      assert RequestOk(w, id);
      Moves(w, c, Evaluating(w.store.requests[id], now));
    }
  }

  lemma EvaluateStep(w: World, c: nat)
    requires Inv(w) && w.PcOf(c).Evaluating?
    ensures Inv(AfterEvaluate(w, c, w.PcOf(c)))
  {
    hide RequestsOk;
    hide CallersOk;
    hide HistoryOk;
    hide Covers;
    var pc := w.PcOf(c);
    CallerOk(w, c);
    match EvaluateAutoApproval(w.store.rules, pc.request)
    case Err(_) => Moves(w, c, Idle);
    case Ok(rule) => Moves(w, c, Matched(pc.request.id, pc.request.workspace, rule, pc.now));
  }

  /** Whatever passes the checks is properly issued under the bounds just read. */
  lemma CheckedIsOk(w: World, request: IssueRequest, ref: Ref, now: int, origin: Origin)
    requires HeldOk(w) && Checked(w.store, request, ref, now, origin).Some?
    requires origin.ForRequest? ==>
      && AsCreated(w, origin.request) && MatchOk(w, origin.request, origin.rule) && origin.request.ttl > 0
      && request == IssueFor(origin.request, ref)
    ensures var i := Checked(w.store, request, ref, now, origin).value;
      IssuanceOk(w, i) && i.grant.ref == ref && i.at == now && i.origin == origin
  {
    hide ValidGrantScope;
    hide Within;
    hide Covers;
  }

  lemma CheckBoundsStep(w: World, c: nat)
    requires Inv(w) && w.PcOf(c).Validating?
    ensures Inv(AfterCheckBounds(w, c, w.PcOf(c)))
  {
    hide RequestsOk;
    hide CallersOk;
    hide HistoryOk;
    hide CheckIssue;
    hide IssuanceOk;
    hide Covers;
    hide AllValid;
    CallerOk(w, c);
    var pc := w.PcOf(c);
    CreatedFacts(w, pc.request.id);
    var origin := ForRequest(pc.request, pc.matched);
    match Checked(w.store, IssueFor(pc.request, pc.ref), pc.ref, pc.now, origin)
    case None => Moves(w, c, Restoring(pc.request));
    case Some(issuance) =>
      CheckedIsOk(w, IssueFor(pc.request, pc.ref), pc.ref, pc.now, origin);
      Moves(w, c, Inserting(issuance));
  }

  lemma MintKeeps(w: World)
    requires Inv(w)
    ensures Inv(w.(store := w.store.(minted := w.store.minted + 1)))
  {
    hide Inv;
    var n := w.(store := w.store.(minted := w.store.minted + 1));
    assert HeldOk(n) by { MintedHeld(w); }
    HeldGrows(w, n);
  }

  lemma MintedHeld(w: World)
    requires Inv(w)
    ensures HeldOk(w) && HeldOk(w.(store := w.store.(minted := w.store.minted + 1)))
  {
  }

  lemma IssueDirectStep(w: World, c: nat, request: IssueRequest, now: int)
    requires Inv(w) && w.PcOf(c).Idle?
    ensures Inv(AfterIssueDirect(w, c, request, now))
  {
    hide Inv;
    hide CheckIssue;
    hide IssuanceOk;
    MintKeeps(w);
    MintedHeld(w);
    var (minted, ref) := if request.ref.Some? then (w.store, request.ref.value) else MintRef(w.store);
    if Checked(w.store, request, ref, now, Direct).Some? {
      CheckedIsOk(w, request, ref, now, Direct);
      var i := Checked(w.store, request, ref, now, Direct).value;
      var n := w.(store := minted);
      IssuanceStaysOk(w, n, i);
      Moves(n, c, Inserting(i));
    }
  }

  // ---- inserting ----------------------------------------------------------------------------

  /** The refs and requests of earlier issuances are not those of a new one. */
  lemma IssuedOneMore(w: World, i: Issuance)
    requires HistoryOk(w) && i.grant.ref !in w.store.grants
    requires i.origin.ForRequest? ==> NoIssuance(w.issued, i.origin.request.id)
    ensures IssuedApart(w.issued + [i])
  {
    hide IssuanceOk;
    forall j | j in w.issued ensures j.grant.ref != i.grant.ref { assert IssuedOk(w, j); }
  }

  lemma NoIssuanceOneMore(issued: seq<Issuance>, i: Issuance, id: string)
    ensures NoIssuance(issued + [i], id) <==> NoIssuance(issued, id) && !IssuedFor(i, id)
  {
    if NoIssuance(issued + [i], id) {
      assert i in issued + [i];
      forall j | j in issued ensures !IssuedFor(j, id) { assert j in issued + [i]; }
    }
  }

  predicate Inserted(w: World, n: World, c: nat, i: Issuance) {
    && var grants := w.store.grants[i.grant.ref := i.grant];
    && n == w.(store := w.store.(grants := grants), issued := w.issued + [i]).Go(c, Idle)
    && i.grant.ref !in w.store.grants && w.PcOf(c) == Inserting(i)
  }

  lemma InsertedHolders(w: World, n: World, c: nat, i: Issuance, id: string)
    requires Inv(w) && Inserted(w, n, c, i)
    ensures NoHolder(n.callers, id) <==> NoHolder(w.callers, id) || IssuedFor(i, id)
  {
    hide RequestsOk;
    hide CallersOk;
    hide HistoryOk;
    if NoHolder(n.callers, id) && !IssuedFor(i, id) {
      forall d | d in w.callers ensures w.callers[d].Holds() != Some(id) { if d != c { assert d in n.callers; } }
    }
    if IssuedFor(i, id) { OnlyOneHolds(w, c, id); }
  }

  lemma InsertedRequest(w: World, n: World, c: nat, i: Issuance, id: string)
    requires Inv(w) && Inserted(w, n, c, i) && id in w.store.requests
    ensures RequestOk(n, id)
  {
    hide CallersOk;
    hide HistoryOk;
    hide NoHolder;
    hide NoIssuance;
    hide Undecided;
    hide CreatedOk;
    hide IssuanceOk;
    InsertedHolders(w, n, c, i, id);
    NoIssuanceOneMore(w.issued, i, id);
    CallerOk(w, c);
    assert RequestOk(w, id);
  }

  lemma InsertedPc(w: World, n: World, c: nat, i: Issuance, d: nat)
    requires Inv(w) && Inserted(w, n, c, i) && d in n.callers
    ensures PcOk(n, n.callers[d])
  {
    hide RequestsOk;
    hide HistoryOk;
    hide NoIssuance;
    hide IssuanceOk;
    hide Covers;
    if d != c {
      var pc := w.callers[d];
      assert PcOk(w, pc);
      if pc.Inserting? { IssuanceStaysOk(w, n, pc.issuance); }
      if pc.Holds().Some? {
        NoIssuanceOneMore(w.issued, i, pc.Holds().value);
        assert pc.Holds() != w.PcOf(c).Holds();
      }
    }
  }

  lemma InsertedIssued(w: World, n: World, c: nat, i: Issuance, j: Issuance)
    requires Inv(w) && Inserted(w, n, c, i) && (j in w.issued || j == i)
    ensures IssuedOk(n, j)
  {
    hide RequestsOk;
    hide NoHolder;
    hide IssuanceOk;
    CallerOk(w, c);
    if j in w.issued { assert IssuedOk(w, j); }
    IssuanceStaysOk(w, n, j);
    if j.origin.ForRequest? { InsertedHolders(w, n, c, i, j.origin.request.id); }
  }

  lemma InsertedHistory(w: World, n: World, c: nat, i: Issuance)
    requires Inv(w) && Inserted(w, n, c, i)
    ensures HistoryOk(n) && HoldersApart(n.callers) && HeldOk(n)
  {
    hide RequestsOk;
    hide CallersOk;
    hide IssuedOk;
    hide IssuanceOk;
    CallerOk(w, c);
    IssuedOneMore(w, i);
    forall j | j in n.issued ensures IssuedOk(n, j) { InsertedIssued(w, n, c, i, j); }
    forall ref | ref in n.store.grants ensures exists j | j in n.issued :: j.grant.ref == ref {
      if ref == i.grant.ref { assert i in n.issued; }
      else {
        var j :| j in w.issued && j.grant.ref == ref;
        assert j in n.issued;
      }
    }
  }

  lemma InsertStep(w: World, c: nat, i: Issuance)
    requires Inv(w) && w.PcOf(c) == Inserting(i)
    ensures Inv(AfterInsert(w, c, i))
  {
    hide RequestOk;
    hide CallersOk;
    hide HistoryOk;
    hide HoldersApart;
    hide HeldOk;
    hide PcOk;
    if i.grant.ref in w.store.grants {
      FailedInsert(w, c, i);
      Moves(w, c, if i.origin.ForRequest? then Restoring(i.origin.request) else Idle);
    } else {
      var n := AfterInsert(w, c, i);
      InsertedHistory(w, n, c, i);
      forall id | id in n.store.requests ensures RequestOk(n, id) { InsertedRequest(w, n, c, i, id); }
      InsertedCallers(w, n, c, i);
    }
  }

  lemma InsertedCallers(w: World, n: World, c: nat, i: Issuance)
    requires Inv(w) && Inserted(w, n, c, i)
    ensures CallersOk(n)
  {
    hide Inv;
    hide PcOk;
    forall d | d in n.callers ensures PcOk(n, n.callers[d]) { InsertedPc(w, n, c, i, d); }
  }

  lemma FailedInsert(w: World, c: nat, i: Issuance)
    requires Inv(w) && w.PcOf(c) == Inserting(i)
    ensures PcOk(w, if i.origin.ForRequest? then Restoring(i.origin.request) else Idle)
  {
    hide RequestsOk;
    hide HistoryOk;
    CallerOk(w, c);
  }

  // ---- requests, revocation, bounds and rules -----------------------------------------------

  lemma NobodyKnows(w: World, id: string)
    requires Inv(w) && id !in w.store.requests
    ensures NoIssuance(w.issued, id) && NoHolder(w.callers, id)
  {
    hide RequestOk;
    hide Covers;
    forall i | i in w.issued ensures !IssuedFor(i, id) { assert IssuedOk(w, i); }
    forall c | c in w.callers ensures w.callers[c].Holds() != Some(id) { assert PcOk(w, w.callers[c]); }
  }

  predicate NewRequest(w: World, n: World, id: string) {
    && id !in w.store.requests && id in n.store.requests
    && n == w.(store := w.store.(requests := w.store.requests[id := n.store.requests[id]]),
               created := w.created[id := n.store.requests[id]])
  }

  lemma NewRequestPc(w: World, n: World, id: string, pc: Pc)
    requires NewRequest(w, n, id) && id !in w.created && PcOk(w, pc)
    ensures PcOk(n, pc)
  {
    hide Covers;
    hide IssuanceOk;
    if pc.Inserting? { IssuanceStaysOk(w, n, pc.issuance); }
  }

  lemma NewRequestIssued(w: World, n: World, id: string, i: Issuance)
    requires NewRequest(w, n, id) && id !in w.created && IssuedOk(w, i)
    ensures IssuedOk(n, i)
  {
    hide IssuanceOk;
    IssuanceStaysOk(w, n, i);
  }

  lemma RequestAdded(w: World, n: World, id: string)
    requires Inv(w) && NewRequest(w, n, id) && CreatedOk(n.store.requests[id], id)
    ensures Inv(n)
  {
    hide PcOk;
    hide IssuedOk;
    hide IssuedApart;
    hide CreatedOk;
    NobodyKnows(w, id);
    forall other | other in n.store.requests ensures RequestOk(n, other) {
      if other != id { assert RequestOk(w, other); } else { SelfUndecided(n.store.requests[id], id); }
    }
    forall c | c in n.callers ensures PcOk(n, n.callers[c]) { NewRequestPc(w, n, id, w.callers[c]); }
    forall i | i in n.issued ensures IssuedOk(n, i) { NewRequestIssued(w, n, id, i); }
  }

  lemma SelfUndecided(r: GrantRequest, id: string)
    requires CreatedOk(r, id)
    ensures Undecided(r, r) && r.status == Pending && r.issuedRef.None?
  {
  }

  lemma CreateStep(w: World, step: Step)
    requires Inv(w) && step.Create?
    ensures Inv(AfterCreate(w, step))
  {
    hide Inv;
    hide AllValid;
    var created := CreateRequest(w.store, step.id, step.workspace, step.requester, step.target, step.scopes, step.ttl,
                                 step.reason);
    if created.Ok? {
      RequestAdded(w, AfterCreate(w, step), step.id);
    }
  }

  lemma RevokedIssued(w: World, n: World, ref: Ref, i: Issuance)
    requires ref in w.store.grants && IssuedOk(w, i)
    requires n == w.(store := w.store.(grants := w.store.grants[ref := w.store.grants[ref].(status := Revoked)]))
    ensures IssuedOk(n, i)
  {
    hide IssuanceOk;
    IssuanceStaysOk(w, n, i);
  }

  lemma RevokeStep(w: World, ref: Ref, workspace: string)
    requires Inv(w) && RevokeGrant(w.store, ref, workspace).Some?
    ensures Inv(w.(store := RevokeGrant(w.store, ref, workspace).value))
  {
    hide PcOk;
    hide IssuedOk;
    hide IssuedApart;
    hide Undecided;
    hide CreatedOk;
    var n := w.(store := RevokeGrant(w.store, ref, workspace).value);
    forall id | id in n.store.requests ensures RequestOk(n, id) { assert RequestOk(w, id); }
    forall c | c in n.callers ensures PcOk(n, n.callers[c]) { RevokedPc(w, n, w.callers[c]); }
    forall i | i in n.issued ensures IssuedOk(n, i) { RevokedIssued(w, n, ref, i); }
  }

  lemma RevokedPc(w: World, n: World, pc: Pc)
    requires PcOk(w, pc) && n == w.(store := w.store.(grants := n.store.grants))
    ensures PcOk(n, pc)
  {
    hide Covers;
    hide IssuanceOk;
    if pc.Inserting? { IssuanceStaysOk(w, n, pc.issuance); }
  }

  lemma BoundsStep(w: World, key: AgentKey, scopes: seq<string>, maxTtl: Option<int>, clearMaxTtl: bool)
    requires Inv(w)
    ensures Inv(Next(w, ChangeBounds(key, scopes, maxTtl, clearMaxTtl)))
  {
    hide RequestsOk;
    hide CallersOk;
    hide HistoryOk;
    hide AllValid;
    var n := Next(w, ChangeBounds(key, scopes, maxTtl, clearMaxTtl));
    HeldGrows(w, n);
  }

  lemma RuleStep(w: World, rule: Rule)
    requires Inv(w)
    ensures Inv(Next(w, PutRule(rule)))
  {
    hide RequestsOk;
    hide CallersOk;
    hide HistoryOk;
    hide ValidRule;
    HeldGrows(w, Next(w, PutRule(rule)));
  }

  // ---- every step ---------------------------------------------------------------------------

  lemma MatchedFacts(w: World, c: nat)
    requires Inv(w) && w.PcOf(c).Matched?
    ensures var pc := w.PcOf(c); pc.id in w.created && MatchOk(w, w.created[pc.id], Some(pc.rule))
  {
    CallerOk(w, c);
  }

  lemma StepKeeps(w: World, step: Step)
    requires Inv(w)
    ensures Inv(Next(w, step))
  {
    hide Inv;
    hide AfterIssueDirect;
    hide AfterReadForRules;
    hide AfterEvaluate;
    hide AfterRead;
    hide AfterClaim;
    hide AfterCheckBounds;
    hide AfterInsert;
    hide AfterClaimRejection;
    hide AfterCreate;
    hide MatchOk;
    match step
    case ChangeBounds(key, scopes, maxTtl, clearMaxTtl) => BoundsStep(w, key, scopes, maxTtl, clearMaxTtl);
    case PutRule(rule) => RuleStep(w, rule);
    case Create(_, _, _, _, _, _, _) => CreateStep(w, step);
    case Revoke(ref, workspace) => if RevokeGrant(w.store, ref, workspace).Some? { RevokeStep(w, ref, workspace); }
    case IssueDirect(c, request, now) => if w.PcOf(c).Idle? { IssueDirectStep(w, c, request, now); }
    case ReadForRules(c, id, workspace, now) => if w.PcOf(c).Idle? { ReadForRulesStep(w, c, id, workspace, now); }
    case EvaluateRules(c) => if w.PcOf(c).Evaluating? { EvaluateStep(w, c); }
    case ReadRequest(c, id, workspace, now) =>
      if w.PcOf(c).Idle? {
        NoMatchNeeded(w, id);
        ReadStep(w, c, id, workspace, None, now);
      }
    case ReadMatched(c) =>
      if w.PcOf(c).Matched? {
        MatchedFacts(w, c);
        ReadStep(w, c, w.PcOf(c).id, w.PcOf(c).workspace, Some(w.PcOf(c).rule), w.PcOf(c).now);
      }
    case ReadForRejection(c, id, workspace, now) =>
      if w.PcOf(c).Idle? && LookUpPending(w.store, id, workspace).Ok? {
        ReadForRejectionStep(w, c, id, workspace, now);
      }
    case Claim(c, decider, why) => if w.PcOf(c).Claiming? { ClaimStep(w, c, decider, why); }
    case CheckBounds(c) => if w.PcOf(c).Validating? { CheckBoundsStep(w, c); }
    case Insert(c) => if w.PcOf(c).Inserting? { InsertStep(w, c, w.PcOf(c).issuance); }
    case Restore(c) => if w.PcOf(c).Restoring? { RestoreStep(w, c); }
    case ClaimRejection(c, decider, why) => if w.PcOf(c).Rejecting? { ClaimRejectionStep(w, c, decider, why); }
  }

  lemma NoMatchNeeded(w: World, id: string)
    ensures id in w.created ==> MatchOk(w, w.created[id], None)
  {
  }

  lemma {:induction false} RunKeeps(w: World, steps: seq<Step>)
    requires Inv(w)
    ensures Inv(Run(w, steps))
    decreases |steps|
  {
    hide Inv;
    hide Next;
    if steps != [] {
      StepKeeps(w, steps[0]);
      RunKeeps(Next(w, steps[0]), steps[1..]);
    }
  }

  lemma Reachable(steps: seq<Step>)
    ensures Inv(Run(Start(), steps))
  {
    assert Inv(Start());
    RunKeeps(Start(), steps);
  }
}
