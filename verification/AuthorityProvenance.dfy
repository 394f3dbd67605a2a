/** Where an issuance comes from: the very step that checked it against the stored bounds and, for an automatic
    approval, the very evaluation of the stored rules that started it. */
module AuthorityProvenance {
  import opened Common
  import opened Authority
  import opened AuthorityRuns
  import opened AuthoritySafety

  /** The world after the first k steps. */
  function At(steps: seq<Step>, k: nat): World
    requires k <= |steps|
  {
    Run(Start(), steps[..k])
  }

  function OwnerKey(i: Issuance): AgentKey { AgentKey(i.grant.workspace, i.grant.agent) }

  /** Step k, of caller c, checked the issuance against the bounds stored just then, and let it pass. */
  predicate CheckedAt(steps: seq<Step>, c: nat, i: Issuance, k: nat) {
    && k < |steps| && (steps[k].CheckBounds? || steps[k].IssueDirect?) && steps[k].caller == c
    && var w := At(steps, k);
    && OwnerKey(i) in w.store.bounds && w.store.bounds[OwnerKey(i)] == i.bounds
    && !w.PcOf(c).Inserting? && At(steps, k + 1).PcOf(c) == Inserting(i)
  }

  /** Step j, of caller c, evaluated the pending request it had read against the rules stored just then, and the
      rule won. */
  predicate EvaluatedAt(steps: seq<Step>, c: nat, id: string, rule: Rule, j: nat) {
    && j < |steps| && steps[j].EvaluateRules? && steps[j].caller == c
    && var w := At(steps, j);
    && w.PcOf(c).Evaluating?
    && var request := w.PcOf(c).request;
    && request.id == id && AsCreated(w, request) && EvaluateAutoApproval(w.store.rules, request) == Ok(rule)
    && rule in w.store.rules && Covers(rule, request)
  }

  /** Step m is the compare-and-set by which caller c claimed the decision. */
  predicate ClaimedAt(steps: seq<Step>, c: nat, id: string, m: nat) {
    && m < |steps| && steps[m].Claim? && steps[m].caller == c
    && At(steps, m).PcOf(c).Claiming?
    && At(steps, m + 1).PcOf(c).Validating? && At(steps, m + 1).PcOf(c).request.id == id
  }

  /** The call is deciding this request on the strength of this rule. */
  predicate Carries(pc: Pc, id: string, rule: Rule) {
    match pc
    case Matched(i, _, r, _) => i == id && r == rule
    case Claiming(request, matched, _) => request.id == id && matched == Some(rule)
    case Validating(request, matched, _, _) => request.id == id && matched == Some(rule)
    case _ => false
  }

  /** Caller c evaluated at step j and has decided on that rule alone up to step k. */
  predicate CarriedSince(steps: seq<Step>, c: nat, id: string, rule: Rule, j: nat, k: nat)
    requires k <= |steps|
  {
    EvaluatedAt(steps, c, id, rule, j) && j < k && forall n | j < n <= k :: Carries(At(steps, n).PcOf(c), id, rule)
  }

  /** One uninterrupted automatic decision: evaluated at j, claimed at m, still in hand at k. */
  predicate AutoDecided(steps: seq<Step>, c: nat, id: string, rule: Rule, j: nat, m: nat, k: nat)
    requires k <= |steps|
  {
    CarriedSince(steps, c, id, rule, j, k) && j < m < k && ClaimedAt(steps, c, id, m)
  }

  predicate ByRule(i: Issuance) { i.origin.ForRequest? && i.origin.rule.Some? }

  /** Caller c checked the issuance at step k, on the rule it had evaluated itself if there is one. */
  ghost predicate JustifiedBy(steps: seq<Step>, i: Issuance, c: nat, k: nat) {
    && CheckedAt(steps, c, i, k)
    && (ByRule(i) ==>
          exists j, m :: AutoDecided(steps, c, i.origin.request.id, i.origin.rule.value, j, m, k))
  }

  ghost predicate Justified(steps: seq<Step>, i: Issuance) {
    exists c, k :: JustifiedBy(steps, i, c, k)
  }

  ghost predicate Traced(steps: seq<Step>, c: nat) {
    match At(steps, |steps|).PcOf(c)
    case Matched(id, _, rule, _) => exists j :: CarriedSince(steps, c, id, rule, j, |steps|)
    case Claiming(request, matched, _) =>
      matched.Some? ==> exists j :: CarriedSince(steps, c, request.id, matched.value, j, |steps|)
    case Validating(request, matched, _, _) =>
      matched.Some? ==> exists j, m :: AutoDecided(steps, c, request.id, matched.value, j, m, |steps|)
    case Inserting(i) => Justified(steps, i)
    case _ => true
  }

  // ---- the past stays the past --------------------------------------------------------------

  lemma AtPrefix(steps: seq<Step>, s: Step, k: nat)
    requires k <= |steps|
    ensures At(steps + [s], k) == At(steps, k)
  {
    assert (steps + [s])[..k] == steps[..k];
  }

  lemma AtEnd(steps: seq<Step>, s: Step)
    ensures At(steps, |steps|) == Run(Start(), steps)
    ensures At(steps + [s], |steps| + 1) == Next(At(steps, |steps|), s)
  {
    hide Run;
    assert steps[..|steps|] == steps && (steps + [s])[..|steps| + 1] == steps + [s];
    RunSnoc(Start(), steps, s);
  }

  lemma EvaluatedStays(steps: seq<Step>, s: Step, c: nat, id: string, rule: Rule, j: nat)
    requires EvaluatedAt(steps, c, id, rule, j)
    ensures EvaluatedAt(steps + [s], c, id, rule, j)
  {
    hide EvaluateAutoApproval;
    hide At;
    AtPrefix(steps, s, j);
  }

  lemma CarriedStays(steps: seq<Step>, s: Step, c: nat, id: string, rule: Rule, j: nat, k: nat)
    requires k <= |steps| && CarriedSince(steps, c, id, rule, j, k)
    ensures CarriedSince(steps + [s], c, id, rule, j, k)
  {
    hide EvaluatedAt;
    hide At;
    hide Carries;
    EvaluatedStays(steps, s, c, id, rule, j);
    forall n | j < n <= k ensures Carries(At(steps + [s], n).PcOf(c), id, rule) { AtPrefix(steps, s, n); }
  }

  lemma AutoStays(steps: seq<Step>, s: Step, c: nat, id: string, rule: Rule, j: nat, m: nat, k: nat)
    requires k <= |steps| && AutoDecided(steps, c, id, rule, j, m, k)
    ensures AutoDecided(steps + [s], c, id, rule, j, m, k)
  {
    hide CarriedSince;
    hide At;
    CarriedStays(steps, s, c, id, rule, j, k);
    AtPrefix(steps, s, m);
    AtPrefix(steps, s, m + 1);
  }

  lemma JustifiedStays(steps: seq<Step>, s: Step, i: Issuance)
    requires Justified(steps, i)
    ensures Justified(steps + [s], i)
  {
    hide AutoDecided;
    hide At;
    var c: nat, k: nat :| JustifiedBy(steps, i, c, k);
    AtPrefix(steps, s, k);
    AtPrefix(steps, s, k + 1);
    if ByRule(i) {
      var j: nat, m: nat :| AutoDecided(steps, c, i.origin.request.id, i.origin.rule.value, j, m, k);
      AutoStays(steps, s, c, i.origin.request.id, i.origin.rule.value, j, m, k);
    }
    assert JustifiedBy(steps + [s], i, c, k);
  }

  // ---- one step -----------------------------------------------------------------------------

  predicate Calls(s: Step, c: nat) {
    && !s.ChangeBounds? && !s.PutRule? && !s.Create? && !s.Revoke? && s.caller == c
  }

  /** Others leave a call where it stands. */
  lemma OthersDoNotMove(w: World, s: Step, c: nat)
    requires !Calls(s, c)
    ensures Next(w, s).PcOf(c) == w.PcOf(c)
  {
    hide CheckIssue;
    hide EvaluateAutoApproval;
    hide AllValid;
    hide ValidRule;
  }

  /** How a call comes to carry a rule. */
  lemma Matching(w: World, s: Step, c: nat)
    requires Inv(w) && Calls(s, c) && Next(w, s).PcOf(c).Matched? && Next(w, s).PcOf(c) != w.PcOf(c)
    ensures var pc := Next(w, s).PcOf(c);
      && s.EvaluateRules? && w.PcOf(c).Evaluating? && w.PcOf(c).request.id == pc.id && AsCreated(w, w.PcOf(c).request)
      && EvaluateAutoApproval(w.store.rules, w.PcOf(c).request) == Ok(pc.rule)
  {
    hide CheckIssue;
    hide Inv;
    CallerOk(w, c);
  }

  lemma Reading(w: World, s: Step, c: nat)
    requires Inv(w) && Calls(s, c) && Next(w, s).PcOf(c).Claiming? && Next(w, s).PcOf(c) != w.PcOf(c)
    ensures var pc := Next(w, s).PcOf(c);
      pc.matched.Some? ==> w.PcOf(c).Matched? && w.PcOf(c).id == pc.request.id && w.PcOf(c).rule == pc.matched.value
  {
    hide CheckIssue;
    hide EvaluateAutoApproval;
    hide CallersOk;
    hide HistoryOk;
    hide NoHolder;
    hide NoIssuance;
    hide AllValid;
    FiledUnderId(w);
  }

  lemma FiledUnderId(w: World)
    requires Inv(w)
    ensures forall id | id in w.store.requests :: w.store.requests[id].id == id
  {
    hide CallersOk;
    hide HistoryOk;
    hide NoHolder;
    hide NoIssuance;
    hide AllValid;
    forall id | id in w.store.requests ensures w.store.requests[id].id == id { assert RequestOk(w, id); }
  }

  lemma Winning(w: World, s: Step, c: nat)
    requires Calls(s, c) && Next(w, s).PcOf(c).Validating? && Next(w, s).PcOf(c) != w.PcOf(c)
    ensures var pc := Next(w, s).PcOf(c);
      s.Claim? && w.PcOf(c).Claiming? && w.PcOf(c).request == pc.request && w.PcOf(c).matched == pc.matched
  {
    hide CheckIssue;
    hide EvaluateAutoApproval;
  }

  lemma Checking(w: World, s: Step, c: nat)
    requires Calls(s, c) && Next(w, s).PcOf(c).Inserting? && Next(w, s).PcOf(c) != w.PcOf(c)
    ensures var i := Next(w, s).PcOf(c).issuance;
      && (s.CheckBounds? || s.IssueDirect?) && !w.PcOf(c).Inserting?
      && OwnerKey(i) in w.store.bounds && w.store.bounds[OwnerKey(i)] == i.bounds
      && (ByRule(i) ==>
            w.PcOf(c).Validating? && w.PcOf(c).request == i.origin.request && w.PcOf(c).matched == i.origin.rule)
  {
    hide AllValid;
    hide Within;
    hide EvaluateAutoApproval;
  }

  /** What is newly issued was being inserted. */
  lemma IssuedFrom(w: World, s: Step, i: Issuance)
    requires i in Next(w, s).issued
    ensures i in w.issued || (s.Insert? && w.PcOf(s.caller) == Inserting(i))
  {
    hide CheckIssue;
    hide EvaluateAutoApproval;
    hide AllValid;
    hide ValidRule;
  }

  // ---- every run ----------------------------------------------------------------------------

  lemma CarriedExtends(steps: seq<Step>, s: Step, c: nat, id: string, rule: Rule, j: nat)
    requires CarriedSince(steps, c, id, rule, j, |steps|) && Carries(Next(At(steps, |steps|), s).PcOf(c), id, rule)
    ensures CarriedSince(steps + [s], c, id, rule, j, |steps| + 1)
  {
    hide EvaluatedAt;
    hide At;
    hide Next;
    hide Carries;
    EvaluatedStays(steps, s, c, id, rule, j);
    AtEnd(steps, s);
    forall n | j < n <= |steps| + 1 ensures Carries(At(steps + [s], n).PcOf(c), id, rule) {
      if n <= |steps| { AtPrefix(steps, s, n); }
    }
  }

  lemma AutoExtends(steps: seq<Step>, s: Step, c: nat, id: string, rule: Rule, j: nat, m: nat)
    requires AutoDecided(steps, c, id, rule, j, m, |steps|) && Carries(Next(At(steps, |steps|), s).PcOf(c), id, rule)
    ensures AutoDecided(steps + [s], c, id, rule, j, m, |steps| + 1)
  {
    hide CarriedSince;
    hide At;
    hide Next;
    hide Carries;
    CarriedExtends(steps, s, c, id, rule, j);
    AtPrefix(steps, s, m);
    AtPrefix(steps, s, m + 1);
  }

  lemma TraceUnmoved(steps: seq<Step>, s: Step, c: nat)
    requires Traced(steps, c) && Next(At(steps, |steps|), s).PcOf(c) == At(steps, |steps|).PcOf(c)
    ensures Traced(steps + [s], c)
  {
    hide CarriedSince;
    hide AutoDecided;
    hide Justified;
    hide At;
    hide Next;
    AtEnd(steps, s);
    match At(steps, |steps|).PcOf(c)
    case Matched(id, _, rule, _) =>
      var j: nat :| CarriedSince(steps, c, id, rule, j, |steps|);
      CarriedExtends(steps, s, c, id, rule, j);
    case Claiming(request, matched, _) =>
      if matched.Some? {
        var j: nat :| CarriedSince(steps, c, request.id, matched.value, j, |steps|);
        CarriedExtends(steps, s, c, request.id, matched.value, j);
      }
    case Validating(request, matched, _, _) =>
      if matched.Some? {
        var j: nat, m: nat :| AutoDecided(steps, c, request.id, matched.value, j, m, |steps|);
        AutoExtends(steps, s, c, request.id, matched.value, j, m);
      }
    case Inserting(i) => JustifiedStays(steps, s, i);
    case _ =>
  }

  lemma TraceEvaluating(steps: seq<Step>, s: Step, c: nat)
    requires var (w, n) := (At(steps, |steps|), Next(At(steps, |steps|), s));
      Inv(w) && Calls(s, c) && n.PcOf(c).Matched? && n.PcOf(c) != w.PcOf(c)
    ensures Traced(steps + [s], c)
  {
    hide EvaluateAutoApproval;
    hide AsCreated;
    hide Covers;
    hide Inv;
    hide At;
    hide Next;
    AtEnd(steps, s);
    AtPrefix(steps, s, |steps|);
    Matching(At(steps, |steps|), s, c);
    var pc := At(steps + [s], |steps| + 1).PcOf(c);
    assert CarriedSince(steps + [s], c, pc.id, pc.rule, |steps|, |steps| + 1);
  }

  lemma TraceReading(steps: seq<Step>, s: Step, c: nat)
    requires var (w, n) := (At(steps, |steps|), Next(At(steps, |steps|), s));
      Inv(w) && Calls(s, c) && Traced(steps, c) && n.PcOf(c).Claiming? && n.PcOf(c) != w.PcOf(c)
    ensures Traced(steps + [s], c)
  {
    hide CarriedSince;
    hide Inv;
    hide At;
    hide Next;
    AtEnd(steps, s);
    Reading(At(steps, |steps|), s, c);
    var pc := At(steps + [s], |steps| + 1).PcOf(c);
    if pc.matched.Some? {
      var j: nat :| CarriedSince(steps, c, pc.request.id, pc.matched.value, j, |steps|);
      CarriedExtends(steps, s, c, pc.request.id, pc.matched.value, j);
    }
  }

  lemma TraceWinning(steps: seq<Step>, s: Step, c: nat)
    requires var (w, n) := (At(steps, |steps|), Next(At(steps, |steps|), s));
      Calls(s, c) && Traced(steps, c) && n.PcOf(c).Validating? && n.PcOf(c) != w.PcOf(c)
    ensures Traced(steps + [s], c)
  {
    hide EvaluatedAt;
    hide At;
    hide Next;
    AtEnd(steps, s);
    AtPrefix(steps, s, |steps|);
    Winning(At(steps, |steps|), s, c);
    var pc := At(steps + [s], |steps| + 1).PcOf(c);
    if pc.matched.Some? {
      var j: nat :| CarriedSince(steps, c, pc.request.id, pc.matched.value, j, |steps|);
      CarriedExtends(steps, s, c, pc.request.id, pc.matched.value, j);
      assert AutoDecided(steps + [s], c, pc.request.id, pc.matched.value, j, |steps|, |steps| + 1);
    }
  }

  lemma TraceChecking(steps: seq<Step>, s: Step, c: nat)
    requires var (w, n) := (At(steps, |steps|), Next(At(steps, |steps|), s));
      Calls(s, c) && Traced(steps, c) && n.PcOf(c).Inserting? && n.PcOf(c) != w.PcOf(c)
    ensures Traced(steps + [s], c)
  {
    hide AutoDecided;
    hide At;
    hide Next;
    AtEnd(steps, s);
    AtPrefix(steps, s, |steps|);
    Checking(At(steps, |steps|), s, c);
    var i := At(steps + [s], |steps| + 1).PcOf(c).issuance;
    if ByRule(i) {
      var j: nat, m: nat :| AutoDecided(steps, c, i.origin.request.id, i.origin.rule.value, j, m, |steps|);
      AutoStays(steps, s, c, i.origin.request.id, i.origin.rule.value, j, m, |steps|);
    }
    assert JustifiedBy(steps + [s], i, c, |steps|);
  }

  lemma TraceStep(steps: seq<Step>, s: Step, c: nat)
    requires Inv(At(steps, |steps|)) && Traced(steps, c)
    ensures Traced(steps + [s], c)
  {
    hide CarriedSince;
    hide AutoDecided;
    hide Justified;
    hide Inv;
    hide At;
    hide Next;
    hide Calls;
    var w := At(steps, |steps|);
    var pc := Next(w, s).PcOf(c);
    if !Calls(s, c) { OthersDoNotMove(w, s, c); }
    if pc == w.PcOf(c) {
      TraceUnmoved(steps, s, c);
    } else {
      match pc
      case Matched(_, _, _, _) => TraceEvaluating(steps, s, c);
      case Claiming(_, _, _) => TraceReading(steps, s, c);
      case Validating(_, _, _, _) => TraceWinning(steps, s, c);
      case Inserting(_) => TraceChecking(steps, s, c);
      case _ => AtEnd(steps, s);
    }
  }

  /** Every call can be traced back, and every issuance is justified by the steps that led to it. */
  lemma {:induction false} EveryIssuanceIsJustified(steps: seq<Step>)
    ensures forall c: nat :: Traced(steps, c)
    ensures forall i | i in Run(Start(), steps).issued :: Justified(steps, i)
    decreases |steps|
  {
    hide Traced;
    hide Justified;
    hide Inv;
    hide Next;
    if steps == [] {
      AtStart();
    } else {
      var before, s := steps[..|steps| - 1], steps[|steps| - 1];
      assert steps == before + [s];
      EveryIssuanceIsJustified(before);
      Reachable(before);
      AtEnd(before, s);
      forall c: nat ensures Traced(steps, c) { TraceStep(before, s, c); }
      RunSnoc(Start(), before, s);
      forall i | i in Run(Start(), steps).issued ensures Justified(steps, i) { IssuanceStep(before, s, i); }
    }
  }

  lemma AtStart()
    ensures forall c: nat :: Traced([], c)
  {
    assert At([], 0) == Start();
  }

  lemma IssuanceStep(steps: seq<Step>, s: Step, i: Issuance)
    requires (forall c: nat :: Traced(steps, c)) && (forall j | j in Run(Start(), steps).issued :: Justified(steps, j))
    requires i in Next(Run(Start(), steps), s).issued
    ensures Justified(steps + [s], i)
  {
    hide Justified;
    hide At;
    hide Next;
    hide Run;
    AtEnd(steps, s);
    IssuedFrom(Run(Start(), steps), s, i);
    if i !in Run(Start(), steps).issued {
      assert Traced(steps, s.caller);
    }
    JustifiedStays(steps, s, i);
  }
}
