/** What the authority chain promises, proved of every interleaving from an empty service. */
module AuthorityTheorems {
  import opened Common
  import opened Scope
  import opened Authority
  import opened AuthorityRuns
  import opened AuthoritySafety
  import Provenance = AuthorityProvenance

  // ---- the decision race --------------------------------------------------------------------

  /** However many deciders race, a request yields at most one grant. */
  lemma AtMostOneGrantPerRequest(steps: seq<Step>, i: nat, j: nat, id: string)
    ensures var issued := Run(Start(), steps).issued;
      i < j < |issued| ==> !(IssuedFor(issued[i], id) && IssuedFor(issued[j], id))
  {
    Reachable(steps);
    hide RequestsOk;
    hide CallersOk;
    hide HeldOk;
    hide IssuedOk;
  }

  /** The issuance that realises an approved request. */
  predicate Realises(w: World, i: Issuance, r: GrantRequest) {
    && IssuedFor(i, r.id) && r.issuedRef == Some(i.grant.ref) && r.decidedAt == Some(i.at)
    && i.grant.workspace == r.workspace && i.grant.agent == r.target && i.grant.scopes == r.scopes && i.ttl == r.ttl
    && i.grant.expiresAt == Some(i.at + r.ttl)
    && i.grant.ref in w.store.grants
    && (w.store.grants[i.grant.ref] == i.grant || w.store.grants[i.grant.ref] == i.grant.(status := Revoked))
  }

  /** When no decider is in the middle of it, a request is pending exactly as created, or rejected, without a
      grant; or approved with the one grant that matches its reference, scopes and life time. */
  lemma SettledRequest(steps: seq<Step>, id: string)
    requires var w := Run(Start(), steps); id in w.store.requests && NoHolder(w.callers, id)
    ensures var w := Run(Start(), steps); var r := w.store.requests[id];
      && id in w.created && Undecided(r, w.created[id])
      && (r.status == Pending ==> r == w.created[id] && NoIssuance(w.issued, id))
      && (r.status == Rejected ==> r.issuedRef.None? && NoIssuance(w.issued, id))
      && (r.status == Approved ==> exists i | i in w.issued :: Realises(w, i, r))
  {
    var w := Run(Start(), steps);
    Reachable(steps);
    hide CallersOk;
    hide HeldOk;
    hide Run;
    hide AllValid;
    hide Within;
    assert RequestOk(w, id);
    if w.store.requests[id].status == Approved {
      var i :| i in w.issued && IssuedFor(i, id);
      assert IssuedOk(w, i);
      RealisedBy(w, i, id);
    }
  }

  lemma RealisedBy(w: World, i: Issuance, id: string)
    requires IssuedOk(w, i) && IssuedFor(i, id) && id in w.store.requests && RequestOk(w, id)
    ensures Realises(w, i, w.store.requests[id])
  {
    hide AllValid;
    hide Within;
    hide Covers;
    hide NoHolder;
    hide NoIssuance;
  }

  lemma RestoredRequest(w: World, c: nat)
    requires Inv(w) && w.PcOf(c).Restoring?
    ensures var id := w.PcOf(c).request.id; var n := Next(w, Restore(c));
      && id in w.created && n.store.requests == w.store.requests[id := w.created[id]]
      && n.store.grants == w.store.grants && n.issued == w.issued
      && NoIssuance(w.issued, id) && NoHolder(n.callers, id)
  {
    hide Inv;
    hide NoIssuance;
    hide NoHolder;
    CallerOk(w, c);
    OnlyOneHolds(w, c, w.PcOf(c).request.id);
    HoldersGone(w, Next(w, Restore(c)), c, w.PcOf(c).request.id);
  }

  /** A decider whose issuance failed puts back the exact record, whatever others have done meanwhile. */
  lemma RestoreGivesBackTheRequest(steps: seq<Step>, c: nat)
    requires Run(Start(), steps).PcOf(c).Restoring?
    ensures var w := Run(Start(), steps); var id := w.PcOf(c).request.id; var n := Next(w, Restore(c));
      && id in w.created && n.store.requests == w.store.requests[id := w.created[id]]
      && n.store.grants == w.store.grants && n.issued == w.issued
      && NoIssuance(w.issued, id) && NoHolder(n.callers, id)
  {
    hide Inv;
    hide Run;
    hide Next;
    hide NoIssuance;
    hide NoHolder;
    Reachable(steps);
    RestoredRequest(Run(Start(), steps), c);
  }

  // ---- no escalation ------------------------------------------------------------------------

  /** What stands behind a permitted attempt. */
  predicate Backed(w: World, i: Issuance, a: Attempt) {
    && Held(AgentKey(i.grant.workspace, i.grant.agent), i.bounds) in w.boundsHeld
    && (exists b | b in i.bounds.scopes :: Matches(b, a.action, a.resource))
    && a.now < i.at + i.ttl && 0 < i.ttl <= MAX_TTL_SECONDS_CEILING
    && (i.bounds.maxTtl.Some? ==> i.ttl <= i.bounds.maxTtl.value)
    && (i.origin.ForRequest? && i.origin.rule.Some? ==>
          var rule := i.origin.rule.value;
          && rule in w.rulesHeld && rule.active && rule.workspace == i.grant.workspace && rule.target == i.grant.agent
          && i.ttl <= rule.maxTtl && exists s | s in rule.allowed :: Matches(s, a.action, a.resource))
  }

  /** Being within limits carries over from scopes to the requests they match. */
  lemma WithinMatches(scopes: seq<string>, limits: seq<string>, s: string, action: string, resource: string)
    requires Within(scopes, limits) && s in scopes && Requested(action, resource) && Matches(s, action, resource)
    ensures exists b | b in limits :: Matches(b, action, resource)
  {
    hide Subsumes;
    hide Requested;
    hide Matches;
    var b :| b in limits && Subsumes(b, s);
    SubsumptionIsSound(b, s);
    assert Contains(b, s);
  }

  /** If the policy permits an attempt under stored grants, the attempt names no boundary but an active one of the
      workspace, and lies inside the bound that was stored for the agent at the very step that checked the grant,
      before the issue time plus a life time within that bound's cap and the ceiling. If the grant was
      auto-approved, the attempt also lies inside the scopes and the TTL of one active rule, which was stored when
      this same decider evaluated the request, before it claimed the decision. */
  lemma NoEscalation(steps: seq<Step>, workspace: string, agent: string, grants: seq<Grant>, a: Attempt)
    returns (i: Issuance)
    requires var w := Run(Start(), steps);
      forall g | g in grants :: g.ref in w.store.grants && w.store.grants[g.ref] == g
    requires EvaluatePolicy(workspace, agent, grants, a).Permit?
    ensures var w := Run(Start(), steps);
      && i in w.issued && i.grant.ref == EvaluatePolicy(workspace, agent, grants, a).ref
      && i.grant.workspace == workspace && i.grant.agent == agent && Backed(w, i, a) && Inside(workspace, a, false)
    ensures Provenance.Justified(steps, i)
  {
    hide Provenance.Justified;
    hide ValidGrantScope;
    hide EvaluatePolicy;
    hide Matches;
    hide Within;
    hide Requested;
    hide Run;
    hide RequestsOk;
    hide CallersOk;
    var w := Run(Start(), steps);
    Reachable(steps);
    Provenance.EveryIssuanceIsJustified(steps);
    var g := PermitNamesAGrant(workspace, agent, grants, a);
    i :| i in w.issued && i.grant.ref == g.ref;
    assert IssuedOk(w, i);
    var s :| s in g.scopes && Matches(s, a.action, a.resource);
    WithinMatches(i.grant.scopes, i.bounds.scopes, s, a.action, a.resource);
    if i.origin.ForRequest? && i.origin.rule.Some? {
      WithinMatches(i.grant.scopes, i.origin.rule.value.allowed, s, a.action, a.resource);
    }
  }

  // ---- decisions over stored grants ---------------------------------------------------------

  /** Over stored grants the policy permits exactly when the request is well-formed, the boundary right, and one of
      the agent's grants active, unexpired and matching; no other grant can stand in its way. */
  lemma StoredGrantsDecide(steps: seq<Step>, workspace: string, agent: string, grants: seq<Grant>, a: Attempt)
    requires var w := Run(Start(), steps);
      forall g | g in grants :: g.ref in w.store.grants && w.store.grants[g.ref] == g
    ensures EvaluatePolicy(workspace, agent, grants, a).Permit? <==>
      && Requested(a.action, a.resource) && Inside(workspace, a, false)
      && exists g | g in grants :: Allows(g, workspace, agent, a)
  {
    hide ValidGrantScope;
    hide EvaluatePolicy;
    hide Allows;
    hide Within;
    hide Requested;
    hide Run;
    hide RequestsOk;
    hide CallersOk;
    hide AllValid;
    var w := Run(Start(), steps);
    Reachable(steps);
    forall g | g in grants ensures AllValid(g.scopes) {
      var i :| i in w.issued && i.grant.ref == g.ref;
      assert IssuedOk(w, i);
    }
    PolicyPermitsExactly(workspace, agent, grants, a);
  }

  predicate IsRevoked(w: World, ref: Ref) { ref in w.store.grants && w.store.grants[ref].status == Revoked }

  lemma RevokedStepKeeps(w: World, step: Step, ref: Ref)
    requires IsRevoked(w, ref)
    ensures IsRevoked(Next(w, step), ref)
  {
    hide CheckIssue;
    hide EvaluateAutoApproval;
    hide ValidRule;
    hide AllValid;
  }

  /** A revoked grant stays revoked: nothing puts it back. */
  lemma {:induction false} RevocationIsFinal(w: World, more: seq<Step>, ref: Ref)
    requires IsRevoked(w, ref)
    ensures IsRevoked(Run(w, more), ref)
    decreases |more|
  {
    hide IsRevoked;
    hide Next;
    if more != [] {
      RevokedStepKeeps(w, more[0], ref);
      RevocationIsFinal(Next(w, more[0]), more[1..], ref);
    }
  }
}
