/** Concurrent deciders, operators and rule changes, interleaved at every repository access, with a history of
    what was issued and under which bounds and rule. */
module AuthorityRuns {
  import opened Common
  import opened Authority

  datatype Origin = Direct | ForRequest(request: GrantRequest, rule: Option<Rule>)

  /** A grant together with the one reading of the bounds it was checked against. */
  datatype Issuance = Issuance(grant: Grant, bounds: Bounds, ttl: int, at: int, origin: Origin)

  /** Where a call stands between two repository accesses. A request in it is the record it read, which is pending
      except perhaps before the rules are evaluated. */
  datatype Pc =
    | Idle
    | Evaluating(request: GrantRequest, now: int)
    | Matched(id: string, workspace: string, rule: Rule, now: int)
    | Claiming(request: GrantRequest, matched: Option<Rule>, now: int)
    | Validating(request: GrantRequest, matched: Option<Rule>, ref: Ref, now: int)
    | Inserting(issuance: Issuance)
    | Restoring(request: GrantRequest)
    | Rejecting(request: GrantRequest, now: int)
  {
    /** The request whose decision this call has claimed and not yet finished. */
    function Holds(): Option<string> {
      match this
      case Validating(request, _, _, _) => Some(request.id)
      case Inserting(issuance) => if issuance.origin.ForRequest? then Some(issuance.origin.request.id) else None
      case Restoring(request) => Some(request.id)
      case _ => None
    }
  }

  datatype Held = Held(key: AgentKey, bounds: Bounds)

  datatype World = World(
    store: Store,
    callers: map<nat, Pc>,
    issued: seq<Issuance>,
    created: map<string, GrantRequest>,
    boundsHeld: set<Held>,
    rulesHeld: set<Rule>)
  {
    function PcOf(c: nat): Pc { if c in callers then callers[c] else Idle }

    function Go(c: nat, pc: Pc): World { this.(callers := callers[c := pc]) }
  }

  datatype Step =
    | ChangeBounds(key: AgentKey, scopes: seq<string>, maxTtl: Option<int>, clearMaxTtl: bool)
    | PutRule(rule: Rule)
    | Create(id: string, workspace: string, requester: string, target: Option<string>, scopes: seq<string>, ttl: int,
             reason: string)
    | Revoke(ref: Ref, workspace: string)
    | IssueDirect(caller: nat, request: IssueRequest, now: int)
    | ReadForRules(caller: nat, id: string, workspace: string, now: int)
    | EvaluateRules(caller: nat)
    | ReadRequest(caller: nat, id: string, workspace: string, now: int)
    | ReadMatched(caller: nat)
    | ReadForRejection(caller: nat, id: string, workspace: string, now: int)
    | Claim(caller: nat, decider: string, why: Option<string>)
    | CheckBounds(caller: nat)
    | Insert(caller: nat)
    | Restore(caller: nat)
    | ClaimRejection(caller: nat, decider: string, why: Option<string>)

  function IssuanceOf(store: Store, grant: Grant, ttl: int, at: int, origin: Origin): Issuance
    requires AgentKey(grant.workspace, grant.agent) in store.bounds
  {
    Issuance(grant, store.bounds[AgentKey(grant.workspace, grant.agent)], ttl, at, origin)
  }

  /** The issuance the bounds check allows, from one reading of the bounds. */
  function Checked(store: Store, request: IssueRequest, ref: Ref, now: int, origin: Origin): Option<Issuance> {
    match CheckIssue(store, request, ref, now)
    case Err(_) => None
    case Ok(grant) => Some(IssuanceOf(store, grant, AppliedTtl(request.ttl), now, origin))
  }

  function AfterIssueDirect(w: World, c: nat, request: IssueRequest, now: int): World {
    var (minted, ref) := if request.ref.Some? then (w.store, request.ref.value) else MintRef(w.store);
    match Checked(w.store, request, ref, now, Direct)
    case None => w
    case Some(issuance) => w.(store := minted).Go(c, Inserting(issuance))
  }

  function AfterClaim(w: World, c: nat, pc: Pc, decider: string, why: Option<string>): World
    requires pc.Claiming?
  {
    var (minted, ref) := MintRef(w.store);
    match Decide(minted, ApprovedBy(pc.request, pc.now, decider, why, ref))
    case None => w.Go(c, Idle)
    case Some(claimed) => w.(store := claimed).Go(c, Validating(pc.request, pc.matched, ref, pc.now))
  }

  function AfterCheckBounds(w: World, c: nat, pc: Pc): World
    requires pc.Validating?
  {
    match Checked(w.store, IssueFor(pc.request, pc.ref), pc.ref, pc.now, ForRequest(pc.request, pc.matched))
    case None => w.Go(c, Restoring(pc.request))
    case Some(issuance) => w.Go(c, Inserting(issuance))
  }

  function AfterInsert(w: World, c: nat, issuance: Issuance): World {
    match InsertGrant(w.store, issuance.grant)
    case Ok(store) => w.(store := store, issued := w.issued + [issuance]).Go(c, Idle)
    case Err(_) => w.Go(c, if issuance.origin.ForRequest? then Restoring(issuance.origin.request) else Idle)
  }

  function AfterRead(w: World, c: nat, id: string, workspace: string, matched: Option<Rule>, now: int): World {
    match LookUpPending(w.store, id, workspace)
    case Err(_) => w.Go(c, Idle)
    case Ok(request) => w.Go(c, Claiming(request, matched, now))
  }

  function AfterReadForRules(w: World, c: nat, id: string, workspace: string, now: int): World {
    if id !in w.store.requests || w.store.requests[id].workspace != workspace then w
    else w.Go(c, Evaluating(w.store.requests[id], now))
  }

  /** The rules are listed after the request was read; both may have changed in between. */
  function AfterEvaluate(w: World, c: nat, pc: Pc): World
    requires pc.Evaluating?
  {
    match EvaluateAutoApproval(w.store.rules, pc.request)
    case Err(_) => w.Go(c, Idle)
    case Ok(rule) => w.Go(c, Matched(pc.request.id, pc.request.workspace, rule, pc.now))
  }

  function AfterClaimRejection(w: World, c: nat, pc: Pc, decider: string, why: Option<string>): World
    requires pc.Rejecting?
  {
    match Decide(w.store, RejectedBy(pc.request, pc.now, decider, why))
    case None => w.Go(c, Idle)
    case Some(store) => w.(store := store).Go(c, Idle)
  }

  function AfterCreate(w: World, step: Step): World
    requires step.Create?
  {
    match CreateRequest(w.store, step.id, step.workspace, step.requester, step.target, step.scopes, step.ttl,
                        step.reason)
    case Err(_) => w
    case Ok(store) => w.(store := store, created := w.created[step.id := store.requests[step.id]])
  }

  function Next(w: World, step: Step): World {
    match step
    case ChangeBounds(key, scopes, maxTtl, clearMaxTtl) =>
      (match SetBounds(w.store, key, scopes, maxTtl, clearMaxTtl)
       case None => w
       case Some(store) => w.(store := store, boundsHeld := w.boundsHeld + {Held(key, store.bounds[key])}))
    case PutRule(rule) =>
      (match UpsertRule(w.store, rule)
       case None => w
       case Some(store) => w.(store := store, rulesHeld := w.rulesHeld + {rule}))
    case Create(_, _, _, _, _, _, _) => AfterCreate(w, step)
    case Revoke(ref, workspace) =>
      (match RevokeGrant(w.store, ref, workspace) case None => w case Some(store) => w.(store := store))
    case IssueDirect(c, request, now) => if w.PcOf(c).Idle? then AfterIssueDirect(w, c, request, now) else w
    case ReadForRules(c, id, workspace, now) =>
      if w.PcOf(c).Idle? then AfterReadForRules(w, c, id, workspace, now) else w
    case EvaluateRules(c) => if w.PcOf(c).Evaluating? then AfterEvaluate(w, c, w.PcOf(c)) else w
    case ReadRequest(c, id, workspace, now) => if w.PcOf(c).Idle? then AfterRead(w, c, id, workspace, None, now) else w
    case ReadMatched(c) =>
      (match w.PcOf(c)
       case Matched(id, workspace, rule, now) => AfterRead(w, c, id, workspace, Some(rule), now)
       case _ => w)
    case ReadForRejection(c, id, workspace, now) =>
      if !w.PcOf(c).Idle? then w
      else (match LookUpPending(w.store, id, workspace)
            case Err(_) => w
            case Ok(request) => w.Go(c, Rejecting(request, now)))
    case Claim(c, decider, why) => if w.PcOf(c).Claiming? then AfterClaim(w, c, w.PcOf(c), decider, why) else w
    case CheckBounds(c) => if w.PcOf(c).Validating? then AfterCheckBounds(w, c, w.PcOf(c)) else w
    case Insert(c) => (match w.PcOf(c) case Inserting(issuance) => AfterInsert(w, c, issuance) case _ => w)
    case Restore(c) =>
      (match w.PcOf(c)
       case Restoring(request) => w.(store := UpdateRequest(w.store, request)).Go(c, Idle)
       case _ => w)
    case ClaimRejection(c, decider, why) =>
      if w.PcOf(c).Rejecting? then AfterClaimRejection(w, c, w.PcOf(c), decider, why) else w
  }

  function Run(w: World, steps: seq<Step>): World
    decreases |steps|
  {
    if steps == [] then w else Run(Next(w, steps[0]), steps[1..])
  }

  function Start(): World {
    World(Store(map[], map[], map[], [], 0), map[], [], map[], {}, {})
  }

  // ---- runs ---------------------------------------------------------------------------------

  lemma OneStep(w: World, step: Step)
    ensures Run(w, [step]) == Next(w, step)
  {
    hide Next;
    assert Run(Next(w, step), []) == Next(w, step);
  }

  /** A run may be cut anywhere. */
  lemma {:induction false} InParts(w: World, a: seq<Step>, b: seq<Step>)
    ensures Run(w, a + b) == Run(Run(w, a), b)
    decreases |a|
  {
    hide Next;
    if a == [] {
      assert a + b == b;
    } else {
      assert (a + b)[0] == a[0] && (a + b)[1..] == a[1..] + b;
      InParts(Next(w, a[0]), a[1..], b);
    }
  }

  lemma RunSnoc(w: World, steps: seq<Step>, s: Step)
    ensures Run(w, steps + [s]) == Next(Run(w, steps), s)
  {
    hide Next;
    hide Run;
    InParts(w, steps, [s]);
    OneStep(Run(w, steps), s);
  }

  // ---- the invariant ------------------------------------------------------------------------

  predicate IssuedFor(i: Issuance, id: string) { i.origin.ForRequest? && i.origin.request.id == id }

  predicate NoIssuance(issued: seq<Issuance>, id: string) { forall i | i in issued :: !IssuedFor(i, id) }

  predicate NoHolder(callers: map<nat, Pc>, id: string) { forall c | c in callers :: callers[c].Holds() != Some(id) }

  predicate HoldersApart(callers: map<nat, Pc>) {
    forall c, d | c in callers && d in callers && c != d && callers[c].Holds().Some? ::
      callers[c].Holds() != callers[d].Holds()
  }

  /** A request as it was created: valid, pending, undecided. */
  predicate CreatedOk(r: GrantRequest, id: string) {
    && r.id == id && r.ttl > 0 && r.workspace != "" && r.target != "" && r.scopes != [] && AllValid(r.scopes)
    && r.status == Pending && r.decidedAt.None? && r.decidedBy.None? && r.decisionReason.None? && r.issuedRef.None?
  }

  /** Only the decision fields of a request ever differ from its creation. */
  predicate Undecided(r: GrantRequest, created: GrantRequest) {
    r.(status := Pending, decidedAt := None, decidedBy := None, decisionReason := None, issuedRef := None) == created
  }

  predicate RequestOk(w: World, id: string)
    requires id in w.store.requests
  {
    && id in w.created && CreatedOk(w.created[id], id)
    && var r := w.store.requests[id];
    && Undecided(r, w.created[id])
    && (r.status == Pending ==> r == w.created[id])
    && (r.status != Approved ==> r.issuedRef.None? && NoIssuance(w.issued, id) && NoHolder(w.callers, id))
    && (r.status == Approved ==> NoHolder(w.callers, id) ==> !NoIssuance(w.issued, id))
  }

  predicate RequestsOk(w: World) {
    && w.created.Keys == w.store.requests.Keys
    && forall id | id in w.store.requests :: RequestOk(w, id)
  }

  predicate MatchOk(w: World, request: GrantRequest, matched: Option<Rule>) {
    matched.Some? ==> matched.value in w.rulesHeld && Covers(matched.value, request)
  }

  predicate AsCreated(w: World, request: GrantRequest) { request.id in w.created && w.created[request.id] == request }

  /** The stored request carries exactly this claim. */
  predicate ClaimedWith(w: World, id: string, ref: Ref, at: int) {
    && id in w.store.requests && w.store.requests[id].status == Approved
    && w.store.requests[id].issuedRef == Some(ref) && w.store.requests[id].decidedAt == Some(at)
  }

  /** What was checked when the issuance was allowed. */
  predicate IssuanceOk(w: World, i: Issuance) {
    && Held(AgentKey(i.grant.workspace, i.grant.agent), i.bounds) in w.boundsHeld
    && AllValid(i.grant.scopes) && Within(i.grant.scopes, i.bounds.scopes)
    && 0 < i.ttl <= MAX_TTL_SECONDS_CEILING && (i.bounds.maxTtl.Some? ==> i.ttl <= i.bounds.maxTtl.value)
    && i.grant.status == Active && i.grant.expiresAt == Some(i.at + i.ttl)
    && (i.origin.ForRequest? ==>
          var r := i.origin.request;
          && AsCreated(w, r) && MatchOk(w, r, i.origin.rule)
          && i.grant.workspace == r.workspace && i.grant.agent == r.target && i.grant.scopes == r.scopes
          && i.ttl == r.ttl)
  }

  predicate PcOk(w: World, pc: Pc) {
    match pc
    case Idle => true
    case Evaluating(request, _) => request.status == Pending ==> AsCreated(w, request)
    case Matched(id, _, rule, _) => id in w.created && rule in w.rulesHeld && Covers(rule, w.created[id])
    case Claiming(request, matched, _) => AsCreated(w, request) && MatchOk(w, request, matched)
    case Validating(request, matched, ref, now) =>
      && AsCreated(w, request) && MatchOk(w, request, matched) && ClaimedWith(w, request.id, ref, now)
      && NoIssuance(w.issued, request.id)
    case Inserting(i) =>
      && IssuanceOk(w, i)
      && (i.origin.ForRequest? ==>
            ClaimedWith(w, i.origin.request.id, i.grant.ref, i.at) && NoIssuance(w.issued, i.origin.request.id))
    case Restoring(request) =>
      && AsCreated(w, request) && request.id in w.store.requests && w.store.requests[request.id].status == Approved
      && NoIssuance(w.issued, request.id)
    case Rejecting(request, _) => AsCreated(w, request)
  }

  predicate CallersOk(w: World) { forall c | c in w.callers :: PcOk(w, w.callers[c]) }

  predicate IssuedOk(w: World, i: Issuance) {
    && IssuanceOk(w, i)
    && i.grant.ref in w.store.grants
    && (w.store.grants[i.grant.ref] == i.grant || w.store.grants[i.grant.ref] == i.grant.(status := Revoked))
    && (i.origin.ForRequest? ==>
          ClaimedWith(w, i.origin.request.id, i.grant.ref, i.at) && NoHolder(w.callers, i.origin.request.id))
  }

  predicate IssuedApart(issued: seq<Issuance>) {
    forall i, j | 0 <= i < j < |issued| ::
      && issued[i].grant.ref != issued[j].grant.ref
      && (issued[j].origin.ForRequest? ==> !IssuedFor(issued[i], issued[j].origin.request.id))
  }

  predicate HistoryOk(w: World) {
    && (forall i | i in w.issued :: IssuedOk(w, i)) && IssuedApart(w.issued)
    && (forall ref | ref in w.store.grants :: exists i | i in w.issued :: i.grant.ref == ref)
  }

  predicate HeldOk(w: World) {
    && (forall key | key in w.store.bounds :: Held(key, w.store.bounds[key]) in w.boundsHeld)
    && (forall rule | rule in w.store.rules :: rule in w.rulesHeld)
  }

  predicate Inv(w: World) {
    RequestsOk(w) && CallersOk(w) && HoldersApart(w.callers) && HistoryOk(w) && HeldOk(w)
  }
}
