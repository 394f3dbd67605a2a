/** Issuing authority: bounds, grants, grant requests, auto-approval rules, and the policy decision on a request. */
module Authority {
  import opened Common
  import opened Scope

  const DEFAULT_TTL_SECONDS := 1800
  const MAX_TTL_SECONDS_CEILING := 30 * 24 * 3600

  /** A grant reference: minted by the service, never twice, or named by a caller. */
  datatype Ref = Minted(serial: nat) | Named(text: string)

  datatype GrantStatus = Active | Revoked | Expired | OtherStatus

  datatype Grant = Grant(ref: Ref, workspace: string, agent: string, scopes: seq<string>,
                         status: GrantStatus, expiresAt: Option<int>)

  datatype AgentKey = AgentKey(workspace: string, agent: string)

  datatype Bounds = Bounds(scopes: seq<string>, maxTtl: Option<int>)

  datatype RequestStatus = Pending | Approved | Rejected

  datatype GrantRequest = GrantRequest(
    id: string, workspace: string, requester: string, target: string, scopes: seq<string>, ttl: int, reason: string,
    status: RequestStatus, decidedAt: Option<int>, decidedBy: Option<string>, decisionReason: Option<string>,
    issuedRef: Option<Ref>)

  datatype Rule = Rule(id: string, workspace: string, name: string, target: string, allowed: seq<string>,
                       maxTtl: int, active: bool, createdBy: string)

  datatype Store = Store(
    bounds: map<AgentKey, Bounds>,
    grants: map<Ref, Grant>,
    requests: map<string, GrantRequest>,
    rules: seq<Rule>,
    minted: nat)

  // ---- bounds -------------------------------------------------------------------------------

  predicate AllValid(scopes: seq<string>) { forall s | s in scopes :: ValidGrantScope(s) }

  predicate TtlCapOk(maxTtl: Option<int>) { maxTtl.Some? ==> 0 < maxTtl.value <= MAX_TTL_SECONDS_CEILING }

  /** An undeclared cap keeps the stored one; clearing it is explicit. None when validation raises. */
  function SetBounds(store: Store, key: AgentKey, scopes: seq<string>, maxTtl: Option<int>,
                     clearMaxTtl: bool): Option<Store>
  {
    if scopes == [] || !AllValid(scopes) || !TtlCapOk(maxTtl) || (clearMaxTtl && maxTtl.Some?) then None
    else
      var cap := if maxTtl.None? && !clearMaxTtl && key in store.bounds then store.bounds[key].maxTtl else maxTtl;
      Some(store.(bounds := store.bounds[key := Bounds(scopes, cap)]))
  }

  // ---- issuing ------------------------------------------------------------------------------

  datatype IssueRequest = IssueRequest(workspace: string, target: string, scopes: seq<string>, ttl: int,
                                       ref: Option<Ref>)

  datatype IssueError =
    | InvalidWorkspace | InvalidAgent | InvalidTtl | TtlExceedsMax | MissingScopes | InvalidScope
    | BoundsNotFound | InvalidBound | OutsideBounds | TtlExceedsIssuableMax | DuplicateRef

  function AppliedTtl(ttl: int): int { if ttl > 0 then ttl else DEFAULT_TTL_SECONDS }

  function IssueProblem(request: IssueRequest): Option<IssueError> {
    if request.workspace == "" then Some(InvalidWorkspace)
    else if request.target == "" then Some(InvalidAgent)
    else if request.ttl < 0 then Some(InvalidTtl)
    else if AppliedTtl(request.ttl) > MAX_TTL_SECONDS_CEILING then Some(TtlExceedsMax)
    else if request.scopes == [] then Some(MissingScopes)
    else if !AllValid(request.scopes) then Some(InvalidScope)
    else None
  }

  /** Every requested scope lies inside one of the given scopes. */
  predicate Within(requested: seq<string>, limits: seq<string>) {
    forall r | r in requested :: exists b | b in limits :: Subsumes(b, r)
  }

  /** The checks against one reading of the bounds; the grant to insert, or why not. */
  function CheckIssue(store: Store, request: IssueRequest, ref: Ref, now: int): Result<Grant, IssueError> {
    var problem := IssueProblem(request);
    var key := AgentKey(request.workspace, request.target);
    if problem.Some? then Err(problem.value)
    else if key !in store.bounds then Err(BoundsNotFound)
    else
      var bounds := store.bounds[key];
      if !AllValid(bounds.scopes) then Err(InvalidBound)
      else if !Within(request.scopes, bounds.scopes) then Err(OutsideBounds)
      else if bounds.maxTtl.Some? && AppliedTtl(request.ttl) > bounds.maxTtl.value then Err(TtlExceedsIssuableMax)
      else
        var expiry := now + AppliedTtl(request.ttl);
        Ok(Grant(ref, request.workspace, request.target, request.scopes, Active, Some(expiry)))
  }

  function InsertGrant(store: Store, grant: Grant): Result<Store, IssueError> {
    if grant.ref in store.grants then Err(DuplicateRef)
    else Ok(store.(grants := store.grants[grant.ref := grant]))
  }

  function MintRef(store: Store): (Store, Ref) { (store.(minted := store.minted + 1), Minted(store.minted)) }

  function RevokeGrant(store: Store, ref: Ref, workspace: string): Option<Store> {
    if ref !in store.grants || store.grants[ref].workspace != workspace then None
    else Some(store.(grants := store.grants[ref := store.grants[ref].(status := Revoked)]))
  }

  // ---- grant requests -----------------------------------------------------------------------

  datatype RequestError =
    | BadWorkspace | BadRequester | BadTarget | BadTtl | NoScopes | BadScope | NoReason | DuplicateRequest
    | NotFound | NotPending | IssueRefused(why: IssueError)
    | TtlExceedsRule | OutsideRule | NoMatchingRule

  function RequestProblem(workspace: string, requester: string, target: Option<string>, scopes: seq<string>, ttl: int,
                          reason: string): Option<RequestError>
  {
    if workspace == "" then Some(BadWorkspace)
    else if requester == "" then Some(BadRequester)
    else if target == Some("") then Some(BadTarget)
    else if ttl <= 0 then Some(BadTtl)
    else if scopes == [] then Some(NoScopes)
    else if !AllValid(scopes) then Some(BadScope)
    else if reason == "" then Some(NoReason)
    else None
  }

  function CreateRequest(store: Store, id: string, workspace: string, requester: string, target: Option<string>,
                         scopes: seq<string>, ttl: int, reason: string): Result<Store, RequestError>
  {
    var problem := RequestProblem(workspace, requester, target, scopes, ttl, reason);
    if problem.Some? then Err(problem.value)
    else if id in store.requests then Err(DuplicateRequest)
    else Ok(store.(requests := store.requests[id := GrantRequest(
      id, workspace, requester, if target.Some? then target.value else requester, scopes, ttl, reason,
      Pending, None, None, None, None)]))
  }

  /** The pending request a decider starts from. */
  function LookUpPending(store: Store, id: string, workspace: string): Result<GrantRequest, RequestError> {
    if id !in store.requests || store.requests[id].workspace != workspace then Err(NotFound)
    else if store.requests[id].status != Pending then Err(NotPending)
    else Ok(store.requests[id])
  }

  function ApprovedBy(request: GrantRequest, now: int, decider: string, why: Option<string>, ref: Ref): GrantRequest {
    request.(status := Approved, decidedAt := Some(now), decidedBy := Some(decider), decisionReason := why,
             issuedRef := Some(ref))
  }

  function RejectedBy(request: GrantRequest, now: int, decider: string, why: Option<string>): GrantRequest {
    request.(status := Rejected, decidedAt := Some(now), decidedBy := Some(decider), decisionReason := why)
  }

  /** decide_request: compare-and-set on pending. */
  function Decide(store: Store, decided: GrantRequest): Option<Store> {
    if decided.id !in store.requests || store.requests[decided.id].status != Pending then None
    else Some(store.(requests := store.requests[decided.id := decided]))
  }

  function UpdateRequest(store: Store, request: GrantRequest): Store {
    store.(requests := store.requests[request.id := request])
  }

  function IssueFor(request: GrantRequest, ref: Ref): IssueRequest {
    IssueRequest(request.workspace, request.target, request.scopes, request.ttl, Some(ref))
  }

  // ---- auto-approval ------------------------------------------------------------------------

  predicate Candidate(rule: Rule, request: GrantRequest) {
    rule.workspace == request.workspace && rule.active && rule.target == request.target
  }

  predicate Covers(rule: Rule, request: GrantRequest) {
    Candidate(rule, request) && Within(request.scopes, rule.allowed) && request.ttl <= rule.maxTtl
  }

  /** The verdict after the first n rules: the covering rule, or what has been seen so far. */
  datatype Verdict = Match(rule: Rule) | NoMatch(sawScope: bool, sawTtl: bool)

  function Judge(rules: seq<Rule>, request: GrantRequest): (verdict: Verdict)
    ensures verdict.Match? ==> verdict.rule in rules && Covers(verdict.rule, request)
    ensures verdict.NoMatch? ==>
      && (forall r | r in rules :: !Covers(r, request))
      && (verdict.sawScope <==> exists r | r in rules :: Candidate(r, request) && !Within(request.scopes, r.allowed))
      && (verdict.sawTtl <==> exists r | r in rules :: Candidate(r, request) && Within(request.scopes, r.allowed))
  {
    if rules == [] then NoMatch(false, false)
    else
      var last := rules[|rules| - 1];
      var before := Judge(rules[..|rules| - 1], request);
      assert forall r :: r in rules <==> r in rules[..|rules| - 1] || r == last;
      if before.Match? || !Candidate(last, request) then before
      else if !Within(request.scopes, last.allowed) then before.(sawScope := true)
      else if request.ttl > last.maxTtl then before.(sawTtl := true)
      else Match(last)
  }

  /** The reason names the nearest miss: a rule that fits but for its TTL, else a rule for this agent at all. */
  function EvaluateAutoApproval(rules: seq<Rule>, request: GrantRequest): (r: Result<Rule, RequestError>)
    ensures request.status != Pending <==> r == Err(NotPending)
    ensures r.Err? ==>
      r.error.NotPending? || r.error.TtlExceedsRule? || r.error.OutsideRule? || r.error.NoMatchingRule?
    ensures r.Ok? ==> r.value in rules && Covers(r.value, request)
    ensures request.status == Pending && (exists rule | rule in rules :: Covers(rule, request)) ==> r.Ok?
    ensures r == Err(TtlExceedsRule) ==>
      exists rule | rule in rules :: Candidate(rule, request) && Within(request.scopes, rule.allowed)
    ensures r == Err(OutsideRule) ==>
      && (exists rule | rule in rules :: Candidate(rule, request))
      && (forall rule | rule in rules && Candidate(rule, request) :: !Within(request.scopes, rule.allowed))
    ensures r == Err(NoMatchingRule) ==> forall rule | rule in rules :: !Candidate(rule, request)
  {
    if request.status != Pending then Err(NotPending)
    else match Judge(rules, request)
      case Match(rule) => Ok(rule)
      case NoMatch(sawScope, sawTtl) =>
        Err(if sawTtl then TtlExceedsRule else if sawScope then OutsideRule else NoMatchingRule)
  }

  /** The rule stands in the list before every other that covers the request. */
  predicate FirstCovering(rules: seq<Rule>, rule: Rule, request: GrantRequest) {
    exists i | 0 <= i < |rules| :: rules[i] == rule && forall j | 0 <= j < i :: !Covers(rules[j], request)
  }

  lemma {:induction false} FirstRuleWins(rules: seq<Rule>, request: GrantRequest)
    ensures Judge(rules, request).Match? ==> FirstCovering(rules, Judge(rules, request).rule, request)
  {
    hide Covers;
    hide Candidate;
    hide Within;
    if rules != [] {
      var n := |rules| - 1;
      FirstRuleWins(rules[..n], request);
      if Judge(rules[..n], request).Match? {
        var i :| 0 <= i < n && rules[..n][i] == Judge(rules, request).rule
          && forall j | 0 <= j < i :: !Covers(rules[..n][j], request);
        assert forall j | 0 <= j <= i :: rules[j] == rules[..n][j];
      } else if Judge(rules, request).Match? {
        forall j | 0 <= j < n ensures !Covers(rules[j], request) { assert rules[..n][j] == rules[j]; }
      }
    }
  }

  /** The rule an approval rests on is the first that covers the request. */
  lemma ApprovalIsByTheFirstRule(rules: seq<Rule>, request: GrantRequest)
    requires EvaluateAutoApproval(rules, request).Ok?
    ensures FirstCovering(rules, EvaluateAutoApproval(rules, request).value, request)
  {
    hide Covers;
    FirstRuleWins(rules, request);
  }

  /** The verdict in terms of the rules' own fields: the first rule for this agent that contains all scopes and allows
      the TTL; a miss is put down to the TTL if only that was in the way, else to the scopes, else to the lack of a
      rule. */
  lemma EvaluatesExactly(rules: seq<Rule>, request: GrantRequest)
    ensures var r := EvaluateAutoApproval(rules, request);
      && (r.Ok? <==>
            && request.status == Pending
            && exists rule | rule in rules ::
                 && rule.workspace == request.workspace && rule.active && rule.target == request.target
                 && (forall s | s in request.scopes :: exists b | b in rule.allowed :: Subsumes(b, s))
                 && request.ttl <= rule.maxTtl)
      && (r.Ok? ==> FirstCovering(rules, r.value, request))
      && (request.status == Pending && r.Err? ==>
            if exists rule | rule in rules ::
              && rule.workspace == request.workspace && rule.active && rule.target == request.target
              && forall s | s in request.scopes :: exists b | b in rule.allowed :: Subsumes(b, s)
            then r == Err(TtlExceedsRule)
            else if exists rule | rule in rules ::
              rule.workspace == request.workspace && rule.active && rule.target == request.target
            then r == Err(OutsideRule)
            else r == Err(NoMatchingRule))
  {
    hide Subsumes;
    hide Judge;
    hide FirstCovering;
    var r := EvaluateAutoApproval(rules, request);
    if r.Ok? {
      ApprovalIsByTheFirstRule(rules, request);
      assert Covers(r.value, request);
    } else {
      forall rule | rule in rules && request.status == Pending ensures !Covers(rule, request) { }
    }
    forall rule ensures Candidate(rule, request) <==>
      rule.workspace == request.workspace && rule.active && rule.target == request.target { }
    forall rule: Rule ensures Within(request.scopes, rule.allowed) <==>
      forall s | s in request.scopes :: exists b | b in rule.allowed :: Subsumes(b, s) { }
  }

  predicate ValidRule(rule: Rule) {
    && rule.workspace != "" && rule.id != "" && rule.name != "" && rule.target != "" && rule.createdBy != ""
    && rule.maxTtl > 0 && rule.allowed != [] && AllValid(rule.allowed)
  }

  function RuleIndex(rules: seq<Rule>, id: string): (i: Option<nat>)
    ensures i.Some? ==> i.value < |rules| && rules[i.value].id == id
    ensures i.None? ==> forall r | r in rules :: r.id != id
  {
    if rules == [] then None
    else if rules[0].id == id then Some(0)
    else var rest := RuleIndex(rules[1..], id); if rest.None? then None else Some(rest.value + 1)
  }

  /** Creating, updating or disabling a rule; None when it is refused. */
  function UpsertRule(store: Store, rule: Rule): Option<Store> {
    var at := RuleIndex(store.rules, rule.id);
    if !ValidRule(rule) then None
    else if at.None? then Some(store.(rules := store.rules + [rule]))
    else if store.rules[at.value].workspace != rule.workspace then None
    else Some(store.(rules := store.rules[at.value := rule]))
  }

  // ---- whole calls, undisturbed -------------------------------------------------------------

  function IssueGrant(store: Store, request: IssueRequest, now: int): (Store, Result<Grant, IssueError>) {
    var (minted, ref) := if request.ref.Some? then (store, request.ref.value) else MintRef(store);
    match CheckIssue(store, request, ref, now)
    case Err(e) => (store, Err(e))
    case Ok(grant) =>
      match InsertGrant(minted, grant)
      case Err(e) => (minted, Err(e))
      case Ok(after) => (after, Ok(grant))
  }

  function ApproveRequest(store: Store, id: string, workspace: string, decider: string, why: Option<string>, now: int)
    : (Store, Result<Grant, RequestError>)
  {
    match LookUpPending(store, id, workspace)
    case Err(e) => (store, Err(e))
    case Ok(request) =>
      var (minted, ref) := MintRef(store);
      match Decide(minted, ApprovedBy(request, now, decider, why, ref))
      case None => (minted, Err(NotPending))
      case Some(claimed) =>
        var (issued, outcome) := IssueGrant(claimed, IssueFor(request, ref), now);
        match outcome
        case Ok(grant) => (issued, Ok(grant))
        case Err(e) => (UpdateRequest(issued, request), Err(IssueRefused(e)))
  }

  function RejectRequest(store: Store, id: string, workspace: string, decider: string, why: Option<string>, now: int)
    : Result<Store, RequestError>
  {
    match LookUpPending(store, id, workspace)
    case Err(e) => Err(e)
    case Ok(request) =>
      match Decide(store, RejectedBy(request, now, decider, why))
      case None => Err(NotPending)
      case Some(after) => Ok(after)
  }

  function AutoApproveRequest(store: Store, id: string, workspace: string, decider: string, now: int)
    : (Store, Result<Grant, RequestError>)
  {
    if id !in store.requests || store.requests[id].workspace != workspace then (store, Err(NotFound))
    else match EvaluateAutoApproval(store.rules, store.requests[id])
      case Err(e) => (store, Err(e))
      case Ok(rule) => ApproveRequest(store, id, workspace, decider, Some("auto_approval_rule:" + rule.id), now)
  }

  /** Requests are filed under their own id. */
  predicate RequestsFiled(store: Store) { forall id | id in store.requests :: store.requests[id].id == id }

  /** An approval happens completely or leaves everything but the reference counter as it was. */
  lemma ApprovalIsAllOrNothing(store: Store, id: string, workspace: string, decider: string, why: Option<string>,
                               now: int)
    requires RequestsFiled(store)
    ensures var (after, outcome) := ApproveRequest(store, id, workspace, decider, why, now);
      && after.bounds == store.bounds && after.rules == store.rules
      && (outcome.Err? ==> after.grants == store.grants && after.requests == store.requests)
      && (outcome.Ok? ==>
            && id in store.requests
            && var (request, grant) := (store.requests[id], outcome.value);
            && request.status == Pending && request.workspace == workspace
            && grant.ref !in store.grants && after.grants == store.grants[grant.ref := grant]
            && after.requests == store.requests[id := ApprovedBy(request, now, decider, why, grant.ref)]
            && grant.workspace == workspace && grant.agent == request.target && grant.scopes == request.scopes
            && grant.status == Active && grant.expiresAt == Some(now + AppliedTtl(request.ttl)))
  {
    hide ValidGrantScope;
    hide Within;
    if id in store.requests {
      assert store.requests[id := store.requests[id]] == store.requests;
    }
  }

  // ---- when a call fails --------------------------------------------------------------------

  /** The order in which the reasons an issuance can fail for are looked at. */
  function Place(e: IssueError): nat {
    match e
    case InvalidWorkspace => 0
    case InvalidAgent => 1
    case InvalidTtl => 2
    case TtlExceedsMax => 3
    case MissingScopes => 4
    case InvalidScope => 5
    case BoundsNotFound => 6
    case InvalidBound => 7
    case OutsideBounds => 8
    case TtlExceedsIssuableMax => 9
    case DuplicateRef => 10
  }

  /** Half an hour unless the request says otherwise. */
  function RequestedTtl(request: IssueRequest): int { if request.ttl > 0 then request.ttl else 1800 }

  /** What each reason says of the stored bounds and grants and of the request, by itself. */
  predicate IssueFails(e: IssueError, store: Store, request: IssueRequest, ref: Ref) {
    var key := AgentKey(request.workspace, request.target);
    match e
    case InvalidWorkspace => request.workspace == ""
    case InvalidAgent => request.target == ""
    case InvalidTtl => request.ttl < 0
    case TtlExceedsMax => RequestedTtl(request) > 2_592_000
    case MissingScopes => |request.scopes| == 0
    case InvalidScope => exists s | s in request.scopes :: !ValidGrantScope(s)
    case BoundsNotFound => key !in store.bounds
    case InvalidBound => key in store.bounds && exists b | b in store.bounds[key].scopes :: !ValidGrantScope(b)
    case OutsideBounds =>
      && key in store.bounds
      && exists s | s in request.scopes :: forall b | b in store.bounds[key].scopes :: !Subsumes(b, s)
    case TtlExceedsIssuableMax =>
      && key in store.bounds && store.bounds[key].maxTtl.Some?
      && RequestedTtl(request) > store.bounds[key].maxTtl.value
    case DuplicateRef => ref in store.grants
  }

  /** The reason applies, and none that is looked at before it. */
  ghost predicate IssueFailsFirst(e: IssueError, store: Store, request: IssueRequest, ref: Ref) {
    IssueFails(e, store, request, ref) && forall d | Place(d) < Place(e) :: !IssueFails(d, store, request, ref)
  }

  ghost predicate Issuable(store: Store, request: IssueRequest, ref: Ref) {
    forall e :: !IssueFails(e, store, request, ref)
  }

  function IssueRef(store: Store, request: IssueRequest): Ref {
    if request.ref.Some? then request.ref.value else Minted(store.minted)
  }

  lemma CheckFailsExactly(store: Store, request: IssueRequest, ref: Ref, now: int)
    ensures var r := CheckIssue(store, request, ref, now);
      && (r.Ok? <==> forall e | e != DuplicateRef :: !IssueFails(e, store, request, ref))
      && (r.Ok? ==> r.value == Grant(ref, request.workspace, request.target, request.scopes, Active,
                                     Some(now + RequestedTtl(request))))
      && (r.Err? ==> r.error != DuplicateRef && IssueFailsFirst(r.error, store, request, ref))
  {
    hide ValidGrantScope;
    hide Subsumes;
    var r := CheckIssue(store, request, ref, now);
    if r.Ok? {
      forall e | e != DuplicateRef ensures !IssueFails(e, store, request, ref) { }
    } else {
      assert r.error != DuplicateRef && IssueFails(r.error, store, request, ref);
    }
  }

  /** A direct issuance succeeds exactly when no reason against it applies, and then adds exactly the requested grant;
      otherwise it changes no grant and names the first reason that applies. */
  lemma IssueExactly(store: Store, request: IssueRequest, now: int)
    ensures var (after, r) := IssueGrant(store, request, now); var ref := IssueRef(store, request);
      && after.bounds == store.bounds && after.requests == store.requests && after.rules == store.rules
      && (r.Ok? <==> Issuable(store, request, ref))
      && (r.Ok? ==>
            && r.value == Grant(ref, request.workspace, request.target, request.scopes, Active,
                                Some(now + RequestedTtl(request)))
            && after.grants == store.grants[ref := r.value])
      && (r.Err? ==> after.grants == store.grants && IssueFailsFirst(r.error, store, request, ref))
      && after.minted == store.minted + if request.ref.None? && (r.Ok? || r.error == DuplicateRef) then 1 else 0
  {
    hide IssueFails;
    hide CheckIssue;
    CheckFailsExactly(store, request, IssueRef(store, request), now);
    DuplicateFails(store, request, IssueRef(store, request));
  }

  lemma DuplicateFails(store: Store, request: IssueRequest, ref: Ref)
    ensures IssueFails(DuplicateRef, store, request, ref) <==> ref in store.grants
  {
    hide ValidGrantScope;
    hide Subsumes;
  }

  /** Reasons against an issuance depend on the stored bounds and grants alone. */
  lemma SameReasons(a: Store, b: Store, request: IssueRequest, ref: Ref)
    requires a.bounds == b.bounds && a.grants == b.grants
    ensures Issuable(a, request, ref) <==> Issuable(b, request, ref)
    ensures forall e :: IssueFailsFirst(e, a, request, ref) <==> IssueFailsFirst(e, b, request, ref)
  {
    forall e ensures IssueFails(e, a, request, ref) <==> IssueFails(e, b, request, ref) {
      SameReason(e, a, b, request, ref);
    }
  }

  lemma SameReason(e: IssueError, a: Store, b: Store, request: IssueRequest, ref: Ref)
    requires a.bounds == b.bounds && a.grants == b.grants
    ensures IssueFails(e, a, request, ref) <==> IssueFails(e, b, request, ref)
  {
    hide ValidGrantScope;
    hide Subsumes;
  }

  /** An approval succeeds exactly when the request is pending in the workspace and nothing stands against issuing it
      under the next minted reference; otherwise it names what does. */
  lemma ApprovalExactly(store: Store, id: string, workspace: string, decider: string, why: Option<string>, now: int)
    requires RequestsFiled(store)
    ensures var r := ApproveRequest(store, id, workspace, decider, why, now).1;
      var here := id in store.requests && store.requests[id].workspace == workspace;
      && (r == Err(NotFound) <==> !here)
      && (r == Err(NotPending) <==> here && store.requests[id].status != Pending)
      && (here && store.requests[id].status == Pending ==>
            var (request, ref) := (IssueFor(store.requests[id], Minted(store.minted)), Minted(store.minted));
            if Issuable(store, request, ref) then r.Ok? && r.value.ref == ref
            else r.Err? && r.error.IssueRefused? && IssueFailsFirst(r.error.why, store, request, ref))
  {
    hide IssueFails;
    hide IssueGrant;
    hide Issuable;
    hide IssueFailsFirst;
    if id in store.requests && store.requests[id].workspace == workspace && store.requests[id].status == Pending {
      var (minted, ref) := MintRef(store);
      var claimed := Decide(minted, ApprovedBy(store.requests[id], now, decider, why, ref)).value;
      var issue := IssueFor(store.requests[id], ref);
      IssueExactly(claimed, issue, now);
      SameReasons(store, claimed, issue, ref);
      assert IssueRef(claimed, issue) == ref;
      var outcome := IssueGrant(claimed, issue, now).1;
      if outcome.Err? { assert IssueFailsFirst(outcome.error, claimed, issue, ref); }
    }
  }

  /** The order in which the reasons a request is refused for are looked at; the others do not concern its creation. */
  function RequestPlace(e: RequestError): nat {
    match e
    case BadWorkspace => 0
    case BadRequester => 1
    case BadTarget => 2
    case BadTtl => 3
    case NoScopes => 4
    case BadScope => 5
    case NoReason => 6
    case DuplicateRequest => 7
    case _ => 8
  }

  predicate RequestFails(e: RequestError, store: Store, id: string, workspace: string, requester: string,
                         target: Option<string>, scopes: seq<string>, ttl: int, reason: string)
  {
    match e
    case BadWorkspace => workspace == ""
    case BadRequester => requester == ""
    case BadTarget => target == Some("")
    case BadTtl => ttl <= 0
    case NoScopes => |scopes| == 0
    case BadScope => exists s | s in scopes :: !ValidGrantScope(s)
    case NoReason => reason == ""
    case DuplicateRequest => id in store.requests
    case _ => false
  }

  /** A refused request is told the first reason that applies. */
  lemma RequestFailsExactly(store: Store, id: string, workspace: string, requester: string, target: Option<string>,
                            scopes: seq<string>, ttl: int, reason: string)
    ensures var r := CreateRequest(store, id, workspace, requester, target, scopes, ttl, reason);
      r.Err? ==>
        && RequestFails(r.error, store, id, workspace, requester, target, scopes, ttl, reason)
        && forall d | RequestPlace(d) < RequestPlace(r.error) ::
             !RequestFails(d, store, id, workspace, requester, target, scopes, ttl, reason)
  {
    hide ValidGrantScope;
  }

  // ---- enforcement --------------------------------------------------------------------------

  datatype Boundary = Boundary(workspace: string, active: bool)

  datatype Denial =
    | InvalidAction | InvalidResource | GrantRevoked | GrantExpired | GrantNotActive | InvalidGrantScope | ActionDenied
    | BoundaryRequired | BoundaryNotFound | BoundaryWrongWorkspace | BoundaryInactive | NoApplicableGrant

  datatype Decision = Permit(ref: Ref, scopeMatched: string) | Deny(why: Denial)

  datatype Attempt = Attempt(action: string, resource: string, now: int, boundaryId: Option<string>,
                             registry: map<string, Boundary>)

  function BoundaryProblem(grant: Grant, a: Attempt, requireBoundary: bool): Option<Denial> {
    if a.boundaryId.None? then (if requireBoundary then Some(BoundaryRequired) else None)
    else if a.boundaryId.value !in a.registry then Some(BoundaryNotFound)
    else if a.registry[a.boundaryId.value].workspace != grant.workspace then Some(BoundaryWrongWorkspace)
    else if !a.registry[a.boundaryId.value].active then Some(BoundaryInactive)
    else None
  }

  function EvaluateEnforce(grant: Grant, a: Attempt, requireBoundary: bool): Decision {
    var boundary := BoundaryProblem(grant, a, requireBoundary);
    if boundary.Some? then Deny(boundary.value)
    else if !ValidAction(a.action) then Deny(InvalidAction)
    else if !ValidResource(a.resource, false) then Deny(InvalidResource)
    else if grant.status == Revoked then Deny(GrantRevoked)
    else if grant.status == Expired then Deny(GrantExpired)
    else if grant.status != Active then Deny(GrantNotActive)
    else if grant.expiresAt.Some? && grant.expiresAt.value <= a.now then Deny(GrantExpired)
    else if !AllValid(grant.scopes) then Deny(InvalidGrantScope)
    else
      var matched := MatchScope(grant.scopes, a.action, a.resource);
      if matched.None? then Deny(ActionDenied) else Permit(grant.ref, matched.value)
  }

  predicate Decisive(d: Decision) {
    d.Permit? || d.why in {BoundaryRequired, BoundaryNotFound, BoundaryWrongWorkspace, BoundaryInactive,
                           InvalidAction, InvalidResource, InvalidGrantScope}
  }

  /** The first decisive verdict among the agent's own grants. */
  function FirstDecisive(workspace: string, agent: string, grants: seq<Grant>, a: Attempt): Decision {
    if grants == [] then Deny(NoApplicableGrant)
    else if grants[0].workspace != workspace || grants[0].agent != agent then
      FirstDecisive(workspace, agent, grants[1..], a)
    else
      var d := EvaluateEnforce(grants[0], a, false);
      if Decisive(d) then d else FirstDecisive(workspace, agent, grants[1..], a)
  }

  function EvaluatePolicy(workspace: string, agent: string, grants: seq<Grant>, a: Attempt): Decision {
    if !ValidAction(a.action) then Deny(InvalidAction)
    else if !ValidResource(a.resource, false) then Deny(InvalidResource)
    else FirstDecisive(workspace, agent, grants, a)
  }

  // ---- what the decisions mean --------------------------------------------------------------

  /** This grant by itself allows the attempt. */
  predicate Allows(grant: Grant, workspace: string, agent: string, a: Attempt) {
    && grant.workspace == workspace && grant.agent == agent && grant.status == Active
    && (grant.expiresAt.Some? ==> a.now < grant.expiresAt.value)
    && exists s | s in grant.scopes :: Matches(s, a.action, a.resource)
  }

  /** The attempt names an active boundary registered in the workspace, or none where none is required. */
  predicate Inside(workspace: string, a: Attempt, requireBoundary: bool) {
    match a.boundaryId
    case None => !requireBoundary
    case Some(id) => id in a.registry && a.registry[id] == Boundary(workspace, true)
  }

  predicate Unexpired(grant: Grant, now: int) { grant.expiresAt.Some? ==> now < grant.expiresAt.value }

  /** A grant permits exactly when its scopes are valid, the boundary is right, the request well-formed, and the grant
      allows it; the permit names the grant and the first of its scopes that matches. */
  lemma EnforcePermitsExactly(grant: Grant, a: Attempt, requireBoundary: bool)
    ensures var d := EvaluateEnforce(grant, a, requireBoundary);
      && (d.Permit? <==>
            && Inside(grant.workspace, a, requireBoundary) && Requested(a.action, a.resource)
            && AllValid(grant.scopes) && Allows(grant, grant.workspace, grant.agent, a))
      && (d.Permit? ==> d.ref == grant.ref && FirstMatching(grant.scopes, d.scopeMatched, a.action, a.resource))
  {
    hide ValidResource;
    hide ValidGrantScope;
    hide Matches;
  }

  /** Each denial has exactly its cause, in this order: the boundary, the request, the grant's status and expiry, its
      scopes. */
  lemma EnforceDeniesExactly(grant: Grant, a: Attempt, requireBoundary: bool)
    ensures var d := EvaluateEnforce(grant, a, requireBoundary);
      && (d == Deny(BoundaryRequired) <==> a.boundaryId.None? && requireBoundary)
      && (d == Deny(BoundaryNotFound) <==> a.boundaryId.Some? && a.boundaryId.value !in a.registry)
      && (d == Deny(BoundaryWrongWorkspace) <==>
            && a.boundaryId.Some? && a.boundaryId.value in a.registry
            && a.registry[a.boundaryId.value].workspace != grant.workspace)
      && (d == Deny(BoundaryInactive) <==>
            a.boundaryId.Some? && a.boundaryId.value in a.registry
            && a.registry[a.boundaryId.value] == Boundary(grant.workspace, false))
    ensures var d := EvaluateEnforce(grant, a, requireBoundary);
      var inside := Inside(grant.workspace, a, requireBoundary);
      var live := grant.status == Active && Unexpired(grant, a.now);
      && (d == Deny(InvalidAction) <==> inside && !ValidAction(a.action))
      && (d == Deny(InvalidResource) <==> inside && ValidAction(a.action) && !ValidResource(a.resource, false))
      && (d == Deny(GrantRevoked) <==> inside && Requested(a.action, a.resource) && grant.status == Revoked)
      && (d == Deny(GrantExpired) <==>
            && inside && Requested(a.action, a.resource)
            && (grant.status == Expired || (grant.status == Active && !Unexpired(grant, a.now))))
      && (d == Deny(GrantNotActive) <==> inside && Requested(a.action, a.resource) && grant.status == OtherStatus)
      && (d == Deny(InvalidGrantScope) <==>
            inside && Requested(a.action, a.resource) && live && !AllValid(grant.scopes))
      && (d == Deny(ActionDenied) <==>
            && inside && Requested(a.action, a.resource) && live && AllValid(grant.scopes)
            && forall s | s in grant.scopes :: !Matches(s, a.action, a.resource))
  {
    hide ValidAction;
    hide ValidResource;
    hide ValidGrantScope;
    hide Matches;
  }

  predicate Owns(g: Grant, workspace: string, agent: string) { g.workspace == workspace && g.agent == agent }

  /** An own grant on which the policy stops: live, and either with an invalid scope or allowing the attempt. */
  predicate Settles(g: Grant, workspace: string, agent: string, a: Attempt) {
    && Owns(g, workspace, agent) && g.status == Active && Unexpired(g, a.now)
    && (!AllValid(g.scopes) || exists s | s in g.scopes :: Matches(s, a.action, a.resource))
  }

  /** The first grant of the list that settles the attempt. */
  predicate FirstSettling(grants: seq<Grant>, i: nat, workspace: string, agent: string, a: Attempt) {
    && i < |grants| && Settles(grants[i], workspace, agent, a)
    && forall j | 0 <= j < i :: !Settles(grants[j], workspace, agent, a)
  }

  /** One enforcement of an own grant inside the boundary is decisive exactly when the grant settles the attempt. */
  lemma SettlingIsDecisive(g: Grant, workspace: string, agent: string, a: Attempt)
    requires Owns(g, workspace, agent) && Inside(workspace, a, false) && Requested(a.action, a.resource)
    ensures Decisive(EvaluateEnforce(g, a, false)) <==> Settles(g, workspace, agent, a)
    ensures Settles(g, workspace, agent, a) ==>
      if AllValid(g.scopes) then EvaluateEnforce(g, a, false).Permit? && EvaluateEnforce(g, a, false).ref == g.ref
      else EvaluateEnforce(g, a, false) == Deny(InvalidGrantScope)
  {
    hide ValidAction;
    hide ValidResource;
    hide ValidGrantScope;
    hide Matches;
  }

  /** Inside the boundary the first own grant that settles the attempt decides. */
  lemma {:induction false} FirstSettlingDecides(workspace: string, agent: string, grants: seq<Grant>, a: Attempt)
    requires Inside(workspace, a, false) && Requested(a.action, a.resource)
    ensures var d := FirstDecisive(workspace, agent, grants, a);
      && (forall i: nat | FirstSettling(grants, i, workspace, agent, a) ::
            if AllValid(grants[i].scopes) then d.Permit? && d.ref == grants[i].ref else d == Deny(InvalidGrantScope))
      && ((forall g | g in grants :: !Settles(g, workspace, agent, a)) ==> d == Deny(NoApplicableGrant))
  {
    hide Inside;
    hide Requested;
    hide AllValid;
    hide Settles;
    hide Owns;
    hide EvaluateEnforce;
    hide Decisive;
    if grants != [] {
      var g := grants[0];
      FirstSettlingDecides(workspace, agent, grants[1..], a);
      OwnedOrNot(g, workspace, agent, a);
      if Owns(g, workspace, agent) { SettlingIsDecisive(g, workspace, agent, a); }
      forall i: nat | FirstSettling(grants, i, workspace, agent, a) && i > 0
        ensures FirstSettling(grants[1..], i - 1, workspace, agent, a)
      {
        forall j | 0 <= j < i - 1 ensures !Settles(grants[1..][j], workspace, agent, a) {
          assert grants[1..][j] == grants[j + 1];
        }
      }
    }
  }

  lemma OwnedOrNot(g: Grant, workspace: string, agent: string, a: Attempt)
    ensures Owns(g, workspace, agent) <==> g.workspace == workspace && g.agent == agent
    ensures !Owns(g, workspace, agent) ==> !Settles(g, workspace, agent, a)
  {
  }

  /** What stands in the way at the boundary, whichever own grant is asked. */
  lemma {:induction false} BoundaryDecidesFirst(workspace: string, agent: string, grants: seq<Grant>, a: Attempt,
                                                g: Grant)
    requires !Inside(workspace, a, false) && g in grants && Owns(g, workspace, agent)
    ensures FirstDecisive(workspace, agent, grants, a) == EvaluateEnforce(g, a, false)
  {
    hide ValidResource;
    hide ValidGrantScope;
    hide Matches;
    if Owns(grants[0], workspace, agent) {
      assert EvaluateEnforce(grants[0], a, false) == EvaluateEnforce(g, a, false);
    } else {
      BoundaryDecidesFirst(workspace, agent, grants[1..], a, g);
    }
  }

  /** The policy, completely: a malformed request; no own grant; the boundary; then the first own grant that settles
      the attempt, by the validity of its scopes. */
  lemma PolicyDecidesExactly(workspace: string, agent: string, grants: seq<Grant>, a: Attempt)
    ensures var d := EvaluatePolicy(workspace, agent, grants, a);
      var asked := Requested(a.action, a.resource) && exists g | g in grants :: Owns(g, workspace, agent);
      && (d == Deny(InvalidAction) <==> !ValidAction(a.action))
      && (d == Deny(InvalidResource) <==> ValidAction(a.action) && !ValidResource(a.resource, false))
      && (d == Deny(BoundaryNotFound) <==> asked && a.boundaryId.Some? && a.boundaryId.value !in a.registry)
      && (d == Deny(BoundaryWrongWorkspace) <==>
            && asked && a.boundaryId.Some? && a.boundaryId.value in a.registry
            && a.registry[a.boundaryId.value].workspace != workspace)
      && (d == Deny(BoundaryInactive) <==>
            && asked && a.boundaryId.Some? && a.boundaryId.value in a.registry
            && a.registry[a.boundaryId.value] == Boundary(workspace, false))
    ensures var d := EvaluatePolicy(workspace, agent, grants, a);
      Requested(a.action, a.resource) && Inside(workspace, a, false) ==>
        && (forall i: nat | FirstSettling(grants, i, workspace, agent, a) ::
              if AllValid(grants[i].scopes) then d.Permit? && d.ref == grants[i].ref else d == Deny(InvalidGrantScope))
        && ((forall g | g in grants :: !Settles(g, workspace, agent, a)) ==> d == Deny(NoApplicableGrant))
    ensures Requested(a.action, a.resource) && (forall g | g in grants :: !Owns(g, workspace, agent)) ==>
      EvaluatePolicy(workspace, agent, grants, a) == Deny(NoApplicableGrant)
  {
    hide FirstDecisive;
    hide EvaluateEnforce;
    hide ValidAction;
    hide ValidResource;
    hide AllValid;
    hide Settles;
    if Requested(a.action, a.resource) {
      FirstDecisiveKinds(workspace, agent, grants, a);
      if Inside(workspace, a, false) {
        FirstSettlingDecides(workspace, agent, grants, a);
        InsideHasNoBoundaryDenial(workspace, agent, grants, a);
      } else if g :| g in grants && Owns(g, workspace, agent) {
        BoundaryDecidesFirst(workspace, agent, grants, a, g);
        EnforceDeniesExactly(g, a, false);
      }
    }
  }

  /** Asked about a well-formed request, no own grant answers with a fault of the request. */
  lemma {:induction false} FirstDecisiveKinds(workspace: string, agent: string, grants: seq<Grant>, a: Attempt)
    requires Requested(a.action, a.resource)
    ensures FirstDecisive(workspace, agent, grants, a) != Deny(InvalidAction)
    ensures FirstDecisive(workspace, agent, grants, a) != Deny(InvalidResource)
    ensures (forall g | g in grants :: !Owns(g, workspace, agent)) ==>
      FirstDecisive(workspace, agent, grants, a) == Deny(NoApplicableGrant)
  {
    hide ValidAction;
    hide ValidResource;
    hide EvaluateEnforce;
    if grants != [] {
      assert grants[0] in grants;
      EnforceDeniesExactly(grants[0], a, false);
      FirstDecisiveKinds(workspace, agent, grants[1..], a);
    }
  }

  lemma {:induction false} InsideHasNoBoundaryDenial(workspace: string, agent: string, grants: seq<Grant>, a: Attempt)
    requires Inside(workspace, a, false)
    ensures FirstDecisive(workspace, agent, grants, a) !in
      {Deny(BoundaryNotFound), Deny(BoundaryWrongWorkspace), Deny(BoundaryInactive)}
  {
    hide EvaluateEnforce;
    if grants != [] {
      EnforceDeniesExactly(grants[0], a, false);
      InsideHasNoBoundaryDenial(workspace, agent, grants[1..], a);
    }
  }

  /** Over grants with valid scopes the order of the grants does not matter: the policy permits exactly when the
      request is well-formed, the boundary right, and some grant of the agent allows the attempt. */
  lemma PolicyPermitsExactly(workspace: string, agent: string, grants: seq<Grant>, a: Attempt)
    requires forall g | g in grants :: AllValid(g.scopes)
    ensures EvaluatePolicy(workspace, agent, grants, a).Permit? <==>
      && Requested(a.action, a.resource) && Inside(workspace, a, false)
      && exists g | g in grants :: Allows(g, workspace, agent, a)
  {
    hide ValidResource;
    hide AllValid;
    hide EvaluatePolicy;
    hide Matches;
    PolicyDecidesExactly(workspace, agent, grants, a);
    if EvaluatePolicy(workspace, agent, grants, a).Permit? {
      var g := PermitNamesAGrant(workspace, agent, grants, a);
    } else if g :| g in grants && Allows(g, workspace, agent, a) {
      var i := SomeSettles(workspace, agent, grants, a, g);
    }
  }

  lemma {:induction false} SomeSettles(workspace: string, agent: string, grants: seq<Grant>, a: Attempt, g: Grant)
    returns (i: nat)
    requires g in grants && Allows(g, workspace, agent, a)
    ensures FirstSettling(grants, i, workspace, agent, a)
  {
    hide Matches;
    hide AllValid;
    i := 0;
    while !Settles(grants[i], workspace, agent, a)
      invariant i < |grants| && g in grants[i..]
      invariant forall j | 0 <= j < i :: !Settles(grants[j], workspace, agent, a)
      decreases |grants| - i
    {
      i := i + 1;
    }
  }

  /** In any order, a permit names a grant of the list that allows the attempt, inside the boundary. */
  lemma {:induction false} PermitNamesAGrant(workspace: string, agent: string, grants: seq<Grant>, a: Attempt)
    returns (g: Grant)
    requires EvaluatePolicy(workspace, agent, grants, a).Permit?
    ensures g in grants && g.ref == EvaluatePolicy(workspace, agent, grants, a).ref
    ensures Requested(a.action, a.resource) && Allows(g, workspace, agent, a) && AllValid(g.scopes)
    ensures Inside(workspace, a, false)
    ensures FirstMatching(g.scopes, EvaluatePolicy(workspace, agent, grants, a).scopeMatched, a.action, a.resource)
  {
    hide ValidResource;
    hide ValidGrantScope;
    hide Matches;
    if grants[0].workspace == workspace && grants[0].agent == agent && Decisive(EvaluateEnforce(grants[0], a, false)) {
      g := grants[0];
    } else {
      g := PermitNamesAGrant(workspace, agent, grants[1..], a);
    }
  }
}
