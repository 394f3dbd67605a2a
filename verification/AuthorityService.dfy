/** The in-memory service: repositories changed in place. Every method is proved to do what the corresponding
    call of Authority does to the store. */
module AuthorityService {
  import opened Common
  import opened Scope
  import opened Authority

  predicate RulesApart(rules: seq<Rule>) { forall i, j | 0 <= i < j < |rules| :: rules[i].id != rules[j].id }

  class InMemoryService {
    var bounds: map<AgentKey, Bounds>
    var grants: map<Ref, Grant>
    var requests: map<string, GrantRequest>
    var rules: seq<Rule>
    var minted: nat

    function Contents(): Store reads this { Store(bounds, grants, requests, rules, minted) }

    /** Requests are filed under their own id, and no two rules share one. */
    ghost predicate Valid() reads this { RequestsFiled(Contents()) && RulesApart(rules) }

    constructor ()
      ensures Valid() && Contents() == Store(map[], map[], map[], [], 0)
    {
      bounds, grants, requests, rules, minted := map[], map[], map[], [], 0;
    }

    /** Valid bounds replace this agent's and nobody else's. A declared cap is stored, an undeclared one keeps what
        was there, an explicit clearing removes it. From then on these scopes and this cap decide what may be issued. */
    method SetBounds(key: AgentKey, scopes: seq<string>, maxTtl: Option<int>, clearMaxTtl: bool) returns (ok: bool)
      requires Valid()
      modifies this`bounds
      ensures Valid()
      ensures ok <==>
        && |scopes| > 0 && (forall s | s in scopes :: ValidGrantScope(s))
        && (maxTtl.Some? ==> 0 < maxTtl.value <= 2_592_000 && !clearMaxTtl)
      ensures forall other | other != key :: other in bounds <==> other in old(bounds)
      ensures forall other | other in old(bounds) && other != key :: bounds[other] == old(bounds)[other]
      ensures ok ==> key in bounds && bounds[key].scopes == scopes
      ensures ok && maxTtl.Some? ==> bounds[key].maxTtl == maxTtl
      ensures ok && maxTtl.None? && !clearMaxTtl && key in old(bounds) ==> bounds[key].maxTtl == old(bounds)[key].maxTtl
      ensures ok && maxTtl.None? && (clearMaxTtl || key !in old(bounds)) ==> bounds[key].maxTtl.None?
      ensures ok ==> forall request: IssueRequest, ref, now | AgentKey(request.workspace, request.target) == key ::
        CheckIssue(Contents(), request, ref, now).Ok? <==>
          && IssueProblem(request).None? && Within(request.scopes, scopes)
          && (bounds[key].maxTtl.Some? ==> AppliedTtl(request.ttl) <= bounds[key].maxTtl.value)
      ensures var after := Authority.SetBounds(old(Contents()), key, scopes, maxTtl, clearMaxTtl);
        ok == after.Some? && Contents() == if ok then after.value else old(Contents())
    {
      hide ValidGrantScope;
      hide Within;
      hide IssueProblem;
      if scopes == [] || !AllValid(scopes) || !TtlCapOk(maxTtl) { return false; }
      if clearMaxTtl && maxTtl.Some? { return false; }
      var cap := maxTtl;
      if maxTtl.None? && !clearMaxTtl && key in bounds { cap := bounds[key].maxTtl; }
      bounds := bounds[key := Bounds(scopes, cap)];
      return true;
    }

    method MintRef() returns (ref: Ref)
      requires Valid()
      modifies this`minted
      ensures Valid()
      ensures (Contents(), ref) == Authority.MintRef(old(Contents()))
    {
      ref := Minted(minted);
      minted := minted + 1;
    }

    /** The scopes outside the bounds, in request order. */
    method ScopesOutside(requested: seq<string>, limits: seq<string>) returns (outside: seq<string>)
      ensures outside == [] <==> Within(requested, limits)
      ensures forall s :: s in outside <==> s in requested && forall b | b in limits :: !Subsumes(b, s)
    {
      hide Subsumes;
      outside := [];
      for i := 0 to |requested|
        invariant forall s :: s in outside <==> s in requested[..i] && forall b | b in limits :: !Subsumes(b, s)
      {
        assert requested[..i + 1] == requested[..i] + [requested[i]];
        if forall b | b in limits :: !Subsumes(b, requested[i]) {
          outside := outside + [requested[i]];
        }
      }
      assert requested[..|requested|] == requested;
      if outside != [] { assert outside[0] in outside; }
    }

    method IssueGrant(request: IssueRequest, now: int) returns (r: Result<Grant, IssueError>)
      requires Valid()
      modifies this`grants, this`minted
      ensures Valid()
      ensures (Contents(), r) == Authority.IssueGrant(old(Contents()), request, now)
      // Issued exactly when nothing stands against it; otherwise the first thing that does is named.
      ensures r.Ok? <==> Issuable(old(Contents()), request, IssueRef(old(Contents()), request))
      ensures r.Err? ==> IssueFailsFirst(r.error, old(Contents()), request, IssueRef(old(Contents()), request))
      ensures r.Err? ==> grants == old(grants)
      ensures r.Ok? ==>
        && var ref := IssueRef(old(Contents()), request);
        && r.value == Grant(ref, request.workspace, request.target, request.scopes, Active,
                            Some(now + RequestedTtl(request)))
        && grants == old(grants)[ref := r.value]
      ensures minted == old(minted) + if request.ref.None? && (r.Ok? || r.error == DuplicateRef) then 1 else 0
    {
      hide Issuable;
      hide IssueFailsFirst;
      IssueExactly(Contents(), request, now);
      hide ValidGrantScope;
      hide Subsumes;
      var problem := IssueProblem(request);
      if problem.Some? { return Err(problem.value); }
      var ttl := if request.ttl > 0 then request.ttl else DEFAULT_TTL_SECONDS;
      var key := AgentKey(request.workspace, request.target);
      if key !in bounds { return Err(BoundsNotFound); }
      var issuable := bounds[key];
      if !AllValid(issuable.scopes) { return Err(InvalidBound); }
      var outside := ScopesOutside(request.scopes, issuable.scopes);
      if outside != [] { return Err(OutsideBounds); }
      if issuable.maxTtl.Some? && ttl > issuable.maxTtl.value { return Err(TtlExceedsIssuableMax); }
      var ref;
      if request.ref.Some? { ref := request.ref.value; } else { ref := MintRef(); }
      var grant := Grant(ref, request.workspace, request.target, request.scopes, Active, Some(now + ttl));
      if ref in grants { return Err(DuplicateRef); }
      grants := grants[ref := grant];
      return Ok(grant);
    }

    /** Marks the grant revoked, in its own workspace only, and leaves every other grant and field alone. A revoked
        grant permits nothing, and revoking it again changes nothing. */
    method RevokeGrant(ref: Ref, workspace: string) returns (ok: bool)
      requires Valid()
      modifies this`grants
      ensures Valid()
      ensures ok <==> ref in old(grants) && old(grants)[ref].workspace == workspace
      ensures grants.Keys == old(grants).Keys
      ensures forall other | other in grants && (other != ref || !ok) :: grants[other] == old(grants)[other]
      ensures ok ==> grants[ref] == old(grants)[ref].(status := Revoked)
      ensures ok ==> forall a, requireBoundary :: !EvaluateEnforce(grants[ref], a, requireBoundary).Permit?
      ensures ok ==> Authority.RevokeGrant(Contents(), ref, workspace) == Some(Contents())
      ensures var after := Authority.RevokeGrant(old(Contents()), ref, workspace);
        ok == after.Some? && Contents() == if ok then after.value else old(Contents())
    {
      if ref !in grants || grants[ref].workspace != workspace { return false; }
      grants := grants[ref := grants[ref].(status := Revoked)];
      assert grants[ref := grants[ref].(status := Revoked)] == grants;
      return true;
    }

    /** A valid request under a new id is on file, pending and undecided, for the named target or the requester;
        nothing else changes. */
    method CreateRequest(id: string, workspace: string, requester: string, target: Option<string>, scopes: seq<string>,
                         ttl: int, reason: string) returns (r: Result<(), RequestError>)
      requires Valid()
      modifies this`requests
      ensures Valid()
      ensures r.Ok? <==>
        && workspace != "" && requester != "" && target != Some("") && ttl > 0 && scopes != [] && AllValid(scopes)
        && reason != "" && id !in old(requests)
      ensures r.Err? ==> requests == old(requests)
      ensures r.Ok? ==> requests.Keys == old(requests).Keys + {id}
      ensures forall other | other in old(requests) :: other in requests && requests[other] == old(requests)[other]
      ensures r.Ok? ==>
        && var request := requests[id];
        && LookUpPending(Contents(), id, workspace) == Ok(request) && request.issuedRef.None? && request.decidedAt.None?
        && request.requester == requester && request.scopes == scopes && request.ttl == ttl && request.reason == reason
        && request.target == (if target.Some? then target.value else requester)
      ensures r.Err? ==>
        && RequestFails(r.error, old(Contents()), id, workspace, requester, target, scopes, ttl, reason)
        && forall d | RequestPlace(d) < RequestPlace(r.error) ::
             !RequestFails(d, old(Contents()), id, workspace, requester, target, scopes, ttl, reason)
      ensures match Authority.CreateRequest(old(Contents()), id, workspace, requester, target, scopes, ttl, reason)
              case Ok(after) => r.Ok? && Contents() == after
              case Err(e) => r == Err(e) && Contents() == old(Contents())
    {
      hide ValidGrantScope;
      hide RequestFails;
      RequestFailsExactly(Contents(), id, workspace, requester, target, scopes, ttl, reason);
      var problem := RequestProblem(workspace, requester, target, scopes, ttl, reason);
      if problem.Some? { return Err(problem.value); }
      if id in requests { return Err(DuplicateRequest); }
      var agent := if target.Some? then target.value else requester;
      requests := requests[id := GrantRequest(id, workspace, requester, agent, scopes, ttl, reason,
                                              Pending, None, None, None, None)];
      return Ok(());
    }

    /** decide_request: only a pending request is changed, and once it is decided nobody else can win it. */
    method DecideRequest(decided: GrantRequest) returns (won: bool)
      requires Valid()
      modifies this`requests
      ensures Valid()
      ensures won <==> decided.id in old(requests) && old(requests)[decided.id].status == Pending
      ensures requests.Keys == old(requests).Keys
      ensures forall id | id in requests && (id != decided.id || !won) :: requests[id] == old(requests)[id]
      ensures won ==> requests[decided.id] == decided
      ensures won && decided.status != Pending ==>
        forall later: GrantRequest | later.id == decided.id :: Decide(Contents(), later).None?
      ensures var after := Decide(old(Contents()), decided);
        won == after.Some? && Contents() == if won then after.value else old(Contents())
    {
      if decided.id !in requests || requests[decided.id].status != Pending { return false; }
      requests := requests[decided.id := decided];
      return true;
    }

    method ApproveRequest(id: string, workspace: string, decider: string, why: Option<string>, now: int)
      returns (r: Result<Grant, RequestError>)
      requires Valid()
      modifies this`requests, this`grants, this`minted
      ensures Valid()
      ensures (Contents(), r) == Authority.ApproveRequest(old(Contents()), id, workspace, decider, why, now)
      ensures r == Err(NotFound) <==> !(id in old(requests) && old(requests)[id].workspace == workspace)
      ensures r == Err(NotPending) <==>
        id in old(requests) && old(requests)[id].workspace == workspace && old(requests)[id].status != Pending
      ensures id in old(requests) && old(requests)[id].workspace == workspace && old(requests)[id].status == Pending ==>
        var (issue, ref) := (IssueFor(old(requests)[id], Minted(old(minted))), Minted(old(minted)));
        if Issuable(old(Contents()), issue, ref) then r.Ok? && r.value.ref == ref
        else r.Err? && r.error.IssueRefused? && IssueFailsFirst(r.error.why, old(Contents()), issue, ref)
      // All of it or nothing: the record with its decision and the grant, or both tables as they were.
      ensures r.Err? ==> requests == old(requests) && grants == old(grants)
      ensures r.Ok? ==>
        && var (before, ref) := (old(requests)[id], Minted(old(minted)));
        && requests == old(requests)[id := before.(status := Approved, decidedAt := Some(now),
                                                   decidedBy := Some(decider), decisionReason := why,
                                                   issuedRef := Some(ref))]
        && r.value.workspace == workspace && r.value.agent == before.target && r.value.scopes == before.scopes
        && grants == old(grants)[ref := r.value]
    {
      hide Issuable;
      hide IssueFailsFirst;
      ApprovalExactly(Contents(), id, workspace, decider, why, now);
      ApprovalIsAllOrNothing(Contents(), id, workspace, decider, why, now);
      hide CheckIssue;
      if id !in requests || requests[id].workspace != workspace { return Err(NotFound); }
      var request := requests[id];
      if request.status != Pending { return Err(NotPending); }
      var ref := MintRef();
      var won := DecideRequest(request.(status := Approved, decidedAt := Some(now), decidedBy := Some(decider),
                                        decisionReason := why, issuedRef := Some(ref)));
      if !won { return Err(NotPending); }
      var toIssue := IssueRequest(request.workspace, request.target, request.scopes, request.ttl, Some(ref));
      var issued := IssueGrant(toIssue, now);
      if issued.Err? {
        requests := requests[request.id := request];
        return Err(IssueRefused(issued.error));
      }
      return Ok(issued.value);
    }

    /** Rejects exactly a pending request of this workspace. Only its decision fields change, it never gets a grant
        reference, and no later approval, automatic approval or rejection of it can succeed. */
    method RejectRequest(id: string, workspace: string, decider: string, why: Option<string>, now: int)
      returns (r: Result<(), RequestError>)
      requires Valid()
      modifies this`requests
      ensures Valid()
      ensures r.Ok? <==>
        id in old(requests) && old(requests)[id].workspace == workspace && old(requests)[id].status == Pending
      ensures r == Err(NotFound) <==> !(id in old(requests) && old(requests)[id].workspace == workspace)
      ensures requests.Keys == old(requests).Keys
      ensures forall other | other in requests && (other != id || r.Err?) :: requests[other] == old(requests)[other]
      ensures r.Ok? ==>
        && var (request, before) := (requests[id], old(requests)[id]);
        && request.status == Rejected && request.decidedBy == Some(decider) && request.decidedAt == Some(now)
        && request.decisionReason == why && request.issuedRef == before.issuedRef
        && request.(status := Pending, decidedAt := before.decidedAt, decidedBy := before.decidedBy,
                    decisionReason := before.decisionReason) == before
      ensures r.Ok? ==> forall other, who, reason, t ::
        && Authority.ApproveRequest(Contents(), id, other, who, reason, t).1.Err?
        && Authority.RejectRequest(Contents(), id, other, who, reason, t).Err?
      ensures match Authority.RejectRequest(old(Contents()), id, workspace, decider, why, now)
              case Ok(after) => r.Ok? && Contents() == after
              case Err(e) => r == Err(e) && Contents() == old(Contents())
    {
      if id !in requests || requests[id].workspace != workspace { return Err(NotFound); }
      var request := requests[id];
      if request.status != Pending { return Err(NotPending); }
      var won := DecideRequest(request.(status := Rejected, decidedAt := Some(now), decidedBy := Some(decider),
                                        decisionReason := why));
      return if won then Ok(()) else Err(NotPending);
    }

    /** Walks the rules with two flags, as the service does. */
    method EvaluateAutoApproval(request: GrantRequest) returns (r: Result<Rule, RequestError>)
      ensures r == Authority.EvaluateAutoApproval(rules, request)
    {
      hide Within;
      if request.status != Pending { return Err(NotPending); }
      var sawScope, sawTtl := false, false;
      var i := 0;
      while i < |rules|
        invariant 0 <= i <= |rules|
        invariant Judge(rules[..i], request) == NoMatch(sawScope, sawTtl)
      {
        var rule := rules[i];
        assert rules[..i + 1][..i] == rules[..i] && rules[..i + 1][i] == rule;
        i := i + 1;
        if rule.workspace != request.workspace || !rule.active || rule.target != request.target { continue; }
        if !Within(request.scopes, rule.allowed) {
          sawScope := true;
          continue;
        }
        if request.ttl > rule.maxTtl {
          sawTtl := true;
          continue;
        }
        LaterRulesDoNotMatter(rules, i, request);
        return Ok(rule);
      }
      assert rules[..i] == rules;
      return Err(if sawTtl then TtlExceedsRule else if sawScope then OutsideRule else NoMatchingRule);
    }

    method AutoApproveRequest(id: string, workspace: string, decider: string, now: int)
      returns (r: Result<Grant, RequestError>)
      requires Valid()
      modifies this`requests, this`grants, this`minted
      ensures Valid()
      ensures (Contents(), r) == Authority.AutoApproveRequest(old(Contents()), id, workspace, decider, now)
      ensures r == Err(NotFound) <==> !(id in old(requests) && old(requests)[id].workspace == workspace)
      ensures r.Err? ==> requests == old(requests) && grants == old(grants)
      // Approved on the first rule that covers the pending request, which the decision names as its reason.
      ensures r.Ok? ==>
        && old(requests)[id].status == Pending
        && exists rule | rule in rules ::
             && Covers(rule, old(requests)[id]) && FirstCovering(rules, rule, old(requests)[id])
             && requests == old(requests)[id := old(requests)[id].(
                  status := Approved, decidedAt := Some(now), decidedBy := Some(decider),
                  decisionReason := Some("auto_approval_rule:" + rule.id), issuedRef := Some(Minted(old(minted))))]
      ensures id in old(requests) && old(requests)[id].workspace == workspace && old(requests)[id].status == Pending
              && (exists rule | rule in rules ::
                    && rule.workspace == workspace && rule.active && rule.target == old(requests)[id].target
                    && (forall s | s in old(requests)[id].scopes :: exists b | b in rule.allowed :: Subsumes(b, s))
                    && old(requests)[id].ttl <= rule.maxTtl) ==>
        (r.Ok? <==> Issuable(old(Contents()), IssueFor(old(requests)[id], Minted(old(minted))), Minted(old(minted))))
      // What stood in the way: the evaluation's own verdict, or the first reason against the issuance.
      ensures id in old(requests) && old(requests)[id].workspace == workspace ==>
        match Authority.EvaluateAutoApproval(rules, old(requests)[id])
        case Err(e) => r == Err(e)
        case Ok(_) => r.Err? ==>
          && r.error.IssueRefused?
          && var ref := Minted(old(minted));
          && IssueFailsFirst(r.error.why, old(Contents()), IssueFor(old(requests)[id], ref), ref)
    {
      hide Issuable;
      hide IssueFailsFirst;
      hide FirstCovering;
      hide Subsumes;
      hide Authority.EvaluateAutoApproval;
      hide Authority.ApproveRequest;
      if id !in requests || requests[id].workspace != workspace { return Err(NotFound); }
      var verdict := EvaluateAutoApproval(requests[id]);
      if verdict.Err? { return Err(verdict.error); }
      ApprovalIsByTheFirstRule(rules, requests[id]);
      r := ApproveRequest(id, workspace, decider, Some("auto_approval_rule:" + verdict.value.id), now);
    }

    /** A valid rule is stored as the only one with its id, in the place of the one it replaces or at the end; the
        others stay as they are. A rule of another workspace is never replaced, and a disabled rule approves nothing. */
    method UpsertRule(rule: Rule) returns (ok: bool)
      requires Valid()
      modifies this`rules
      ensures Valid()
      ensures ok <==>
        && rule.workspace != "" && rule.id != "" && rule.name != "" && rule.target != "" && rule.createdBy != ""
        && rule.maxTtl > 0 && |rule.allowed| > 0 && (forall s | s in rule.allowed :: ValidGrantScope(s))
        && forall r | r in old(rules) && r.id == rule.id :: r.workspace == rule.workspace
      ensures !ok ==> rules == old(rules)
      ensures ok && (forall r | r in old(rules) :: r.id != rule.id) ==> rules == old(rules) + [rule]
      ensures ok && (exists r | r in old(rules) :: r.id == rule.id) ==>
        && |rules| == |old(rules)|
        && forall i | 0 <= i < |rules| :: rules[i] == if old(rules)[i].id == rule.id then rule else old(rules)[i]
      ensures ok ==> forall r | r in rules && r.id == rule.id :: r == rule
      ensures ok && !rule.active ==>
        forall request | Authority.EvaluateAutoApproval(rules, request).Ok? ::
          Authority.EvaluateAutoApproval(rules, request).value.id != rule.id
      ensures var after := Authority.UpsertRule(old(Contents()), rule);
        ok == after.Some? && Contents() == if ok then after.value else old(Contents())
    {
      if !ValidRule(rule) { return false; }
      var at := RuleIndex(rules, rule.id);
      if at.None? {
        rules := rules + [rule];
        return true;
      }
      if rules[at.value].workspace != rule.workspace { return false; }
      rules := rules[at.value := rule];
      return true;
    }
  }

  lemma {:induction false} LaterRulesDoNotMatter(rules: seq<Rule>, n: nat, request: GrantRequest)
    requires n <= |rules| && Judge(rules[..n], request).Match?
    ensures Judge(rules, request) == Judge(rules[..n], request)
    decreases |rules|
  {
    if n == |rules| {
      assert rules[..n] == rules;
    } else {
      assert rules[..|rules| - 1][..n] == rules[..n];
      LaterRulesDoNotMatter(rules[..|rules| - 1], n, request);
    }
  }
}
