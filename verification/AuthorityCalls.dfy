/** A call nobody interferes with: the steps of AuthorityRuns, taken in a row, do what the whole calls of Authority
    do, and so what the methods of the in-memory service do. */
module AuthorityCalls {
  import opened Common
  import opened Authority
  import opened AuthorityRuns
  import opened AuthoritySafety
  import Provenance = AuthorityProvenance

  /** What a finished call leaves: its store, its grant if it made one, and everybody else where they were. */
  ghost predicate Finished(w: World, n: World, c: nat, store: Store, grant: Option<Grant>, origin: Origin) {
    && n.store == store && n.PcOf(c).Idle? && (forall d: nat | d != c :: n.PcOf(d) == w.PcOf(d))
    && n.created == w.created && n.boundsHeld == w.boundsHeld && n.rulesHeld == w.rulesHeld
    && (grant.None? ==> n.issued == w.issued)
    && (grant.Some? ==>
          && |n.issued| == |w.issued| + 1 && n.issued[..|w.issued|] == w.issued
          && var i := n.issued[|w.issued|];
          && i.grant == grant.value && i.origin == origin)
  }

  function Granted<E>(r: Result<Grant, E>): Option<Grant> { if r.Ok? then Some(r.value) else None }

  // ---- steps in a row -----------------------------------------------------------------------

  lemma TwoSteps(w: World, a: Step, b: Step)
    ensures Run(w, [a, b]) == Next(Next(w, a), b)
  {
    hide Next;
    hide Run;
    assert [a, b] == [a] + [b];
    InParts(w, [a], [b]);
    OneStep(w, a);
    OneStep(Next(w, a), b);
  }

  // ---- issuing under a claimed decision -----------------------------------------------------

  function AfterIssuing(w: World, c: nat): World {
    Next(Next(Next(w, CheckBounds(c)), Insert(c)), Restore(c))
  }

  /** What an issuance for a claimed request leaves: the grant, or the request put back. */
  function Decided(store: Store, request: GrantRequest, ref: Ref, now: int): (Store, Result<Grant, IssueError>) {
    var (issued, outcome) := IssueGrant(store, IssueFor(request, ref), now);
    (if outcome.Ok? then issued else UpdateRequest(issued, request), outcome)
  }

  lemma RefusedCheck(w: World, c: nat)
    requires w.PcOf(c).Validating?
    requires var pc := w.PcOf(c); CheckIssue(w.store, IssueFor(pc.request, pc.ref), pc.ref, pc.now).Err?
    ensures var pc := w.PcOf(c);
      AfterIssuing(w, c) == w.(store := UpdateRequest(w.store, pc.request), callers := w.callers[c := Idle])
  {
    hide CheckIssue;
    var pc := w.PcOf(c);
    var checked := Next(w, CheckBounds(c));
    assert checked == w.Go(c, Restoring(pc.request));
    assert Next(checked, Insert(c)) == checked;
    assert w.callers[c := Restoring(pc.request)][c := Idle] == w.callers[c := Idle];
  }

  lemma PassedCheck(w: World, c: nat)
    requires w.PcOf(c).Validating?
    requires var pc := w.PcOf(c); CheckIssue(w.store, IssueFor(pc.request, pc.ref), pc.ref, pc.now).Ok?
    ensures var pc := w.PcOf(c); var n := Next(w, CheckBounds(c));
      && n.PcOf(c).Inserting? && n == w.(callers := w.callers[c := n.PcOf(c)])
      && var i := n.PcOf(c).issuance;
      && CheckIssue(w.store, IssueFor(pc.request, pc.ref), pc.ref, pc.now) == Ok(i.grant)
      && i.origin == ForRequest(pc.request, pc.matched)
  {
    hide AllValid;
    hide Within;
  }

  lemma InsertedOrRestored(w: World, c: nat)
    requires w.PcOf(c).Inserting? && w.PcOf(c).issuance.origin.ForRequest?
    ensures var i := w.PcOf(c).issuance; var n := Next(Next(w, Insert(c)), Restore(c));
      && (InsertGrant(w.store, i.grant).Ok? ==>
            n == w.(store := InsertGrant(w.store, i.grant).value, issued := w.issued + [i],
                    callers := w.callers[c := Idle]))
      && (InsertGrant(w.store, i.grant).Err? ==>
            n == w.(store := UpdateRequest(w.store, i.origin.request), callers := w.callers[c := Idle]))
  {
    var i := w.PcOf(c).issuance;
    assert w.callers[c := Restoring(i.origin.request)][c := Idle] == w.callers[c := Idle];
  }

  lemma IssuingSteps(w: World, c: nat)
    requires w.PcOf(c).Validating?
    ensures var pc := w.PcOf(c); var (store, outcome) := Decided(w.store, pc.request, pc.ref, pc.now);
      Finished(w, AfterIssuing(w, c), c, store, Granted(outcome), ForRequest(pc.request, pc.matched))
  {
    hide CheckIssue;
    hide Next;
    var pc := w.PcOf(c);
    match CheckIssue(w.store, IssueFor(pc.request, pc.ref), pc.ref, pc.now)
    case Err(_) => RefusedCheck(w, c);
    case Ok(_) =>
      PassedCheck(w, c);
      InsertedOrRestored(Next(w, CheckBounds(c)), c);
  }

  // ---- claiming, then issuing ---------------------------------------------------------------

  function DecisionSteps(c: nat, decider: string, why: Option<string>): seq<Step> {
    [Claim(c, decider, why), CheckBounds(c), Insert(c), Restore(c)]
  }

  lemma DecisionInParts(w: World, c: nat, decider: string, why: Option<string>)
    ensures Run(w, DecisionSteps(c, decider, why)) == AfterIssuing(Next(w, Claim(c, decider, why)), c)
  {
    hide Next;
    hide Run;
    var n := Next(w, Claim(c, decider, why));
    assert DecisionSteps(c, decider, why) == [Claim(c, decider, why), CheckBounds(c)] + [Insert(c), Restore(c)];
    InParts(w, [Claim(c, decider, why), CheckBounds(c)], [Insert(c), Restore(c)]);
    TwoSteps(w, Claim(c, decider, why), CheckBounds(c));
    TwoSteps(Next(n, CheckBounds(c)), Insert(c), Restore(c));
  }

  /** The call holds the pending record that is still the stored one. */
  predicate Fresh(w: World, c: nat) {
    && w.PcOf(c).Claiming?
    && var request := w.PcOf(c).request;
    && request.id in w.store.requests && w.store.requests[request.id] == request && request.status == Pending
  }

  lemma ClaimWins(w: World, c: nat, decider: string, why: Option<string>)
    requires Fresh(w, c)
    ensures var pc := w.PcOf(c); var (minted, ref) := MintRef(w.store);
      && Decide(minted, ApprovedBy(pc.request, pc.now, decider, why, ref)).Some?
      && Next(w, Claim(c, decider, why)) ==
         w.(store := Decide(minted, ApprovedBy(pc.request, pc.now, decider, why, ref)).value)
          .Go(c, Validating(pc.request, pc.matched, ref, pc.now))
  {
  }

  lemma ClaimedDecision(w: World, c: nat, decider: string, why: Option<string>)
    requires Fresh(w, c)
    ensures var pc := w.PcOf(c);
      var (store, outcome) := ApproveRequest(w.store, pc.request.id, pc.request.workspace, decider, why, pc.now);
      Finished(w, Run(w, DecisionSteps(c, decider, why)), c, store, Granted(outcome),
               ForRequest(pc.request, pc.matched))
  {
    hide Next;
    hide Run;
    hide CheckIssue;
    hide AfterIssuing;
    DecisionInParts(w, c, decider, why);
    ClaimWins(w, c, decider, why);
    IssuingSteps(Next(w, Claim(c, decider, why)), c);
  }

  // ---- whole calls --------------------------------------------------------------------------

  /** A call that has gone idle takes none of the later steps. */
  lemma IdleIssues(w: World, c: nat)
    requires w.PcOf(c).Idle?
    ensures AfterIssuing(w, c) == w
  {
    hide AfterCheckBounds;
    assert Next(w, CheckBounds(c)) == w;
    assert Next(w, Insert(c)) == w;
  }

  lemma IdleStays(w: World, c: nat, decider: string, why: Option<string>)
    requires w.PcOf(c).Idle?
    ensures Next(w, EvaluateRules(c)) == w && Next(w, ReadMatched(c)) == w
    ensures Next(w, Claim(c, decider, why)) == w && AfterIssuing(w, c) == w
    ensures Next(w, Insert(c)) == w && Next(w, ClaimRejection(c, decider, why)) == w
  {
    hide AfterIssuing;
    hide AfterEvaluate;
    hide AfterRead;
    hide AfterClaim;
    hide AfterClaimRejection;
    IdleIssues(w, c);
  }

  function ApprovalSteps(c: nat, id: string, workspace: string, decider: string, why: Option<string>,
                         now: int): seq<Step>
  {
    [ReadRequest(c, id, workspace, now)] + DecisionSteps(c, decider, why)
  }

  lemma ReadFails(w: World, c: nat, id: string, workspace: string, decider: string, why: Option<string>, now: int)
    requires w.PcOf(c).Idle? && LookUpPending(w.store, id, workspace).Err?
    ensures Next(w, ReadRequest(c, id, workspace, now)) == w.Go(c, Idle)
    ensures ApproveRequest(w.store, id, workspace, decider, why, now) ==
      (w.store, Err(LookUpPending(w.store, id, workspace).error))
  {
  }

  lemma ReadSucceeds(w: World, c: nat, id: string, workspace: string, now: int)
    requires w.PcOf(c).Idle? && RequestsFiled(w.store) && LookUpPending(w.store, id, workspace).Ok?
    ensures var n := Next(w, ReadRequest(c, id, workspace, now)); var request := w.store.requests[id];
      && n == w.Go(c, Claiming(request, None, now)) && Fresh(n, c) && request.id == id && request.workspace == workspace
  {
  }

  /** Idle or not yet known: the rest of a decision does nothing. */
  lemma NothingToDecide(w: World, c: nat, decider: string, why: Option<string>)
    requires w.PcOf(c).Idle?
    ensures Run(w, DecisionSteps(c, decider, why)) == w
  {
    hide Next;
    hide Run;
    hide AfterIssuing;
    DecisionInParts(w, c, decider, why);
    IdleStays(w, c, decider, why);
  }

  /** Read, claim, check, insert, restore: approve_request. */
  lemma UndisturbedApproval(w: World, c: nat, id: string, workspace: string, decider: string, why: Option<string>,
                            now: int)
    requires w.PcOf(c).Idle? && RequestsFiled(w.store)
    ensures var (store, outcome) := ApproveRequest(w.store, id, workspace, decider, why, now);
      && (outcome.Ok? ==> id in w.store.requests)
      && var origin := if id in w.store.requests then ForRequest(w.store.requests[id], None) else Direct;
      Finished(w, Run(w, ApprovalSteps(c, id, workspace, decider, why, now)), c, store, Granted(outcome), origin)
  {
    hide Run;
    hide Next;
    hide AfterIssuing;
    hide ApproveRequest;
    hide DecisionSteps;
    InParts(w, [ReadRequest(c, id, workspace, now)], DecisionSteps(c, decider, why));
    OneStep(w, ReadRequest(c, id, workspace, now));
    if LookUpPending(w.store, id, workspace).Err? {
      ReadFails(w, c, id, workspace, decider, why, now);
      NothingToDecide(w.Go(c, Idle), c, decider, why);
    } else {
      ReadSucceeds(w, c, id, workspace, now);
      ClaimedDecision(w.Go(c, Claiming(w.store.requests[id], None, now)), c, decider, why);
    }
  }

  // ---- auto-approval ------------------------------------------------------------------------

  /** The reason recorded with an automatic approval. */
  function RuleReason(store: Store, id: string): Option<string>
    requires id in store.requests
  {
    match EvaluateAutoApproval(store.rules, store.requests[id])
    case Ok(rule) => Some("auto_approval_rule:" + rule.id)
    case Err(_) => None
  }

  function AutoApprovalSteps(c: nat, id: string, workspace: string, decider: string, why: Option<string>,
                             now: int): seq<Step>
  {
    [ReadForRules(c, id, workspace, now), EvaluateRules(c), ReadMatched(c)] + DecisionSteps(c, decider, why)
  }

  /** Reading the request, listing the rules, reading the request again. */
  function AfterMatching(w: World, c: nat, id: string, workspace: string, now: int): World {
    Next(Next(Next(w, ReadForRules(c, id, workspace, now)), EvaluateRules(c)), ReadMatched(c))
  }

  lemma MatchingSteps(w: World, c: nat, id: string, workspace: string, now: int)
    ensures Run(w, [ReadForRules(c, id, workspace, now), EvaluateRules(c), ReadMatched(c)])
         == AfterMatching(w, c, id, workspace, now)
  {
    hide Next;
    hide Run;
    var read := ReadForRules(c, id, workspace, now);
    assert [read, EvaluateRules(c), ReadMatched(c)] == [read, EvaluateRules(c)] + [ReadMatched(c)];
    InParts(w, [read, EvaluateRules(c)], [ReadMatched(c)]);
    TwoSteps(w, read, EvaluateRules(c));
    OneStep(Next(Next(w, read), EvaluateRules(c)), ReadMatched(c));
  }

  lemma NoRequestToMatch(w: World, c: nat, id: string, workspace: string, decider: string, now: int)
    requires w.PcOf(c).Idle? && !(id in w.store.requests && w.store.requests[id].workspace == workspace)
    ensures AfterMatching(w, c, id, workspace, now) == w
    ensures AutoApproveRequest(w.store, id, workspace, decider, now) == (w.store, Err(NotFound))
  {
    hide EvaluateAutoApproval;
    hide ApproveRequest;
  }

  lemma NoRuleMatches(w: World, c: nat, id: string, workspace: string, decider: string, now: int)
    requires w.PcOf(c).Idle? && id in w.store.requests && w.store.requests[id].workspace == workspace
    requires EvaluateAutoApproval(w.store.rules, w.store.requests[id]).Err?
    ensures AfterMatching(w, c, id, workspace, now) == w.Go(c, Idle)
    ensures var (store, outcome) := AutoApproveRequest(w.store, id, workspace, decider, now);
      store == w.store && outcome.Err?
  {
    hide EvaluateAutoApproval;
    hide ApproveRequest;
    var n := Next(w, ReadForRules(c, id, workspace, now));
    assert n == w.Go(c, Evaluating(w.store.requests[id], now));
    assert n.callers[c := Idle] == w.callers[c := Idle];
  }

  lemma RuleMatches(w: World, c: nat, id: string, workspace: string, decider: string, now: int)
    requires w.PcOf(c).Idle? && RequestsFiled(w.store)
    requires id in w.store.requests && w.store.requests[id].workspace == workspace
    requires EvaluateAutoApproval(w.store.rules, w.store.requests[id]).Ok?
    ensures var rule := EvaluateAutoApproval(w.store.rules, w.store.requests[id]).value;
      var n := AfterMatching(w, c, id, workspace, now);
      && n == w.Go(c, Claiming(w.store.requests[id], Some(rule), now)) && Fresh(n, c)
    ensures AutoApproveRequest(w.store, id, workspace, decider, now) ==
      ApproveRequest(w.store, id, workspace, decider, RuleReason(w.store, id), now)
  {
    hide ApproveRequest;
    hide Candidate;
    var request := w.store.requests[id];
    var rule := EvaluateAutoApproval(w.store.rules, request).value;
    var read := Next(w, ReadForRules(c, id, workspace, now));
    assert read == w.Go(c, Evaluating(request, now));
    var n := Next(read, EvaluateRules(c));
    assert n == read.Go(c, Matched(id, workspace, rule, now));
    assert n.callers[c := Claiming(request, Some(rule), now)] == w.callers[c := Claiming(request, Some(rule), now)];
  }

  /** Read, evaluate, read again, claim with the rule as reason, check, insert, restore: auto_approve_request. */
  lemma UndisturbedAutoApproval(w: World, c: nat, id: string, workspace: string, decider: string, why: Option<string>,
                                now: int)
    requires w.PcOf(c).Idle? && RequestsFiled(w.store)
    requires id in w.store.requests ==> why == RuleReason(w.store, id)
    ensures var (store, outcome) := AutoApproveRequest(w.store, id, workspace, decider, now);
      && (outcome.Ok? ==>
            && id in w.store.requests && EvaluateAutoApproval(w.store.rules, w.store.requests[id]).Ok?)
      && var origin := if outcome.Err? then Direct
                       else ForRequest(w.store.requests[id],
                                       Some(EvaluateAutoApproval(w.store.rules, w.store.requests[id]).value));
      Finished(w, Run(w, AutoApprovalSteps(c, id, workspace, decider, why, now)), c, store, Granted(outcome), origin)
  {
    hide Run;
    hide Next;
    hide AfterIssuing;
    hide ApproveRequest;
    hide AutoApproveRequest;
    hide AfterMatching;
    hide DecisionSteps;
    hide EvaluateAutoApproval;
    InParts(w, [ReadForRules(c, id, workspace, now), EvaluateRules(c), ReadMatched(c)], DecisionSteps(c, decider, why));
    MatchingSteps(w, c, id, workspace, now);
    if !(id in w.store.requests && w.store.requests[id].workspace == workspace) {
      NoRequestToMatch(w, c, id, workspace, decider, now);
      NothingToDecide(w, c, decider, why);
    } else if EvaluateAutoApproval(w.store.rules, w.store.requests[id]).Err? {
      NoRuleMatches(w, c, id, workspace, decider, now);
      NothingToDecide(w.Go(c, Idle), c, decider, why);
    } else {
      RuleMatches(w, c, id, workspace, decider, now);
      var rule := EvaluateAutoApproval(w.store.rules, w.store.requests[id]).value;
      ClaimedDecision(w.Go(c, Claiming(w.store.requests[id], Some(rule), now)), c, decider, why);
    }
  }

  // ---- rejection and direct issuance --------------------------------------------------------

  /** Read, then reject by compare-and-set: reject_request. */
  lemma UndisturbedRejection(w: World, c: nat, id: string, workspace: string, decider: string, why: Option<string>,
                             now: int)
    requires w.PcOf(c).Idle? && RequestsFiled(w.store)
    ensures var outcome := RejectRequest(w.store, id, workspace, decider, why, now);
      Finished(w, Run(w, [ReadForRejection(c, id, workspace, now), ClaimRejection(c, decider, why)]), c,
               if outcome.Ok? then outcome.value else w.store, None, Direct)
  {
    hide Run;
    TwoSteps(w, ReadForRejection(c, id, workspace, now), ClaimRejection(c, decider, why));
  }

  lemma DirectCheck(w: World, c: nat, request: IssueRequest, now: int)
    requires w.PcOf(c).Idle?
    ensures var (minted, ref) := if request.ref.Some? then (w.store, request.ref.value) else MintRef(w.store);
      var n := Next(w, IssueDirect(c, request, now));
      match CheckIssue(w.store, request, ref, now)
      case Err(_) => n == w
      case Ok(grant) =>
        && n == w.(store := minted, callers := w.callers[c := n.PcOf(c)])
        && n.PcOf(c).Inserting? && n.PcOf(c).issuance.grant == grant && n.PcOf(c).issuance.origin == Direct
  {
    hide AllValid;
    hide Within;
  }

  lemma DirectInsert(w: World, c: nat)
    requires w.PcOf(c).Inserting? && w.PcOf(c).issuance.origin.Direct?
    ensures var i := w.PcOf(c).issuance; var n := Next(w, Insert(c));
      && n.callers == w.callers[c := Idle]
      && n.store == (if i.grant.ref in w.store.grants then w.store else InsertGrant(w.store, i.grant).value)
      && n == w.(store := n.store, callers := n.callers, issued := n.issued)
      && n.issued == (if i.grant.ref in w.store.grants then w.issued else w.issued + [i])
  {
  }

  /** Check against one reading of the bounds, then insert: issue_grant. */
  lemma UndisturbedIssuance(w: World, c: nat, request: IssueRequest, now: int)
    requires w.PcOf(c).Idle?
    ensures var (store, outcome) := IssueGrant(w.store, request, now);
      Finished(w, Run(w, [IssueDirect(c, request, now), Insert(c)]), c, store, Granted(outcome), Direct)
  {
    hide Run;
    hide Next;
    hide CheckIssue;
    TwoSteps(w, IssueDirect(c, request, now), Insert(c));
    DirectCheck(w, c, request, now);
    var n := Next(w, IssueDirect(c, request, now));
    if n.PcOf(c).Inserting? { DirectInsert(n, c); } else { IdleStays(w, c, "", None); }
  }

  /** In every run requests are filed under their own id, so the equalities above hold of every reachable world. */
  lemma RequestsAreFiled(steps: seq<Step>)
    ensures RequestsFiled(Run(Start(), steps).store)
  {
    hide Inv;
    hide Run;
    Reachable(steps);
    Provenance.FiledUnderId(Run(Start(), steps));
  }

  // ---- calls that meet ----------------------------------------------------------------------

  /** The second half of a rejection or of an approval. */
  function ClaimOf(pc: Pc, c: nat, decider: string, why: Option<string>): Step {
    if pc.Rejecting? then ClaimRejection(c, decider, why) else Claim(c, decider, why)
  }

  predicate Deciding(pc: Pc, id: string) {
    (pc.Claiming? && pc.request.id == id) || (pc.Rejecting? && pc.request.id == id)
  }

  /** A decider holds the request as it was created; as long as it is pending, that is the record on file. */
  lemma DeciderFacts(w: World, c: nat, id: string)
    requires Inv(w) && Deciding(w.PcOf(c), id)
    ensures id in w.store.requests
    ensures w.store.requests[id].status == Pending ==> w.store.requests[id] == w.PcOf(c).request
  {
    hide HistoryOk;
    hide HoldersApart;
    hide HeldOk;
    hide CreatedOk;
    hide Undecided;
    hide MatchOk;
    hide NoIssuance;
    hide NoHolder;
    assert PcOk(w, w.PcOf(c));
    assert RequestOk(w, id);
  }

  /** The request as it stands once decided. */
  function DecidedAs(pc: Pc, before: GrantRequest, decider: string, why: Option<string>, ref: Ref): GrantRequest
    requires pc.Claiming? || pc.Rejecting?
  {
    if pc.Rejecting? then
      before.(status := Rejected, decidedAt := Some(pc.now), decidedBy := Some(decider), decisionReason := why)
    else
      before.(status := Approved, decidedAt := Some(pc.now), decidedBy := Some(decider), decisionReason := why,
              issuedRef := Some(ref))
  }

  lemma ClaimIs(w: World, c: nat, decider: string, why: Option<string>)
    requires w.PcOf(c).Claiming?
    ensures Next(w, Claim(c, decider, why)) == AfterClaim(w, c, w.PcOf(c), decider, why)
  {
    hide AfterClaim;
  }

  lemma RejectionIs(w: World, c: nat, decider: string, why: Option<string>)
    requires w.PcOf(c).Rejecting?
    ensures Next(w, ClaimRejection(c, decider, why)) == AfterClaimRejection(w, c, w.PcOf(c), decider, why)
  {
    hide AfterClaimRejection;
  }

  /** The world after one of several deciders of a request has tried to claim the decision. */
  lemma OneClaim(w: World, c: nat, id: string, decider: string, why: Option<string>)
    requires Inv(w) && Deciding(w.PcOf(c), id)
    ensures id in w.store.requests
    ensures var n := Next(w, ClaimOf(w.PcOf(c), c, decider, why)); var pc := w.PcOf(c);
      var before, ref := w.store.requests[id], Minted(w.store.minted);
      if before.status != Pending then n == w.Go(c, Idle)
      else
        && n.store.requests == w.store.requests[id := DecidedAs(pc, before, decider, why, ref)]
        && n == w.(store := n.store).Go(c, if pc.Rejecting? then Idle else Validating(before, pc.matched, ref, pc.now))
        && n.store.grants == w.store.grants && n.store.bounds == w.store.bounds && n.store.rules == w.store.rules
  {
    hide Next;
    DeciderFacts(w, c, id);
    hide Inv;
    if w.PcOf(c).Rejecting? {
      RejectionIs(w, c, decider, why);
    } else {
      ClaimIs(w, c, decider, why);
    }
  }

  /** However many deciders of one request have read it as pending, the first to claim it decides it, as it says and
      at the time of its call, and each of the others finds it decided: it goes away and leaves everything alone. */
  lemma FirstClaimDecides(steps: seq<Step>, c: nat, d: nat, id: string, decider: string, why: Option<string>,
                          other: string, reason: Option<string>)
    requires var w := Run(Start(), steps); c != d && Deciding(w.PcOf(c), id) && Deciding(w.PcOf(d), id)
    ensures var w := Run(Start(), steps); var n := Next(w, ClaimOf(w.PcOf(c), c, decider, why));
      && id in w.store.requests && n.PcOf(d) == w.PcOf(d) && id in n.store.requests
      && n.store.requests[id].status != Pending
      && (w.store.requests[id].status == Pending ==>
            && n.store.requests[id].status == (if w.PcOf(c).Rejecting? then Rejected else Approved)
            && n.store.requests[id].decidedBy == Some(decider) && n.store.requests[id].decisionReason == why
            && n.store.requests[id].decidedAt == Some(w.PcOf(c).now)
            && n.PcOf(c).Validating? == w.PcOf(c).Claiming?)
      && (w.store.requests[id].status != Pending ==> n == w.Go(c, Idle))
      && Next(n, ClaimOf(n.PcOf(d), d, other, reason)) == n.Go(d, Idle)
  {
    hide Inv;
    hide Run;
    hide Next;
    var w := Run(Start(), steps);
    Reachable(steps);
    OneClaim(w, c, id, decider, why);
    var step := ClaimOf(w.PcOf(c), c, decider, why);
    var n := Next(w, step);
    RunSnoc(Start(), steps, step);
    Reachable(steps + [step]);
    assert n.PcOf(d) == w.PcOf(d);
    OneClaim(n, d, id, other, reason);
  }

  /** An automatic approval reads its request again after the rules have been looked at: it goes on exactly if the
      request is still pending there, with what it finds now, and otherwise goes away and leaves everything alone. */
  lemma SecondReadingDecides(w: World, c: nat)
    requires w.PcOf(c).Matched?
    ensures var pc := w.PcOf(c); var n := Next(w, ReadMatched(c));
      if && pc.id in w.store.requests && w.store.requests[pc.id].workspace == pc.workspace
         && w.store.requests[pc.id].status == Pending
      then n == w.Go(c, Claiming(w.store.requests[pc.id], Some(pc.rule), pc.now))
      else n == w.Go(c, Idle)
  {
  }
}
