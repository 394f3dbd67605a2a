/** Proposing the narrowest grant scopes that cover what was observed. */
module ScopeInference {
  import opened Common
  import opened Segments
  import opened Scope

  // ---- observations and proposals -----------------------------------------------------------

  datatype Pair = Pair(action: string, resource: string) {
    function AsScope(): string { AttemptedScope(action, resource) }

    predicate Valid() { Requested(action, resource) }
  }

  /** Timestamps as numbers: ISO-8601 strings sort chronologically. */
  datatype Observation = Observation(pair: Pair, count: int, lastSeen: Option<int>)

  datatype Seen = Seen(count: int, lastSeen: Option<int>)

  datatype Proposal = Proposal(scope: string, count: int, lastSeen: Option<int>, generalized: bool, covers: seq<string>)

  function Latest(a: Option<int>, b: Option<int>): Option<int> {
    if a.None? then b else if b.None? then a else if a.value < b.value then b else a
  }

  function CountFor(obs: seq<Observation>, pair: Pair): int {
    if obs == [] then 0
    else CountFor(obs[..|obs| - 1], pair) + if obs[|obs| - 1].pair == pair then obs[|obs| - 1].count else 0
  }

  function LatestFor(obs: seq<Observation>, pair: Pair): Option<int> {
    if obs == [] then None
    else
      var before := LatestFor(obs[..|obs| - 1], pair);
      if obs[|obs| - 1].pair == pair then Latest(before, obs[|obs| - 1].lastSeen) else before
  }

  function ValidPairs(obs: seq<Observation>): set<Pair> { set o | o in obs && o.pair.Valid() :: o.pair }

  /** The valid observations, summed per action and resource. */
  function Aggregated(obs: seq<Observation>): map<Pair, Seen> {
    map pair | pair in ValidPairs(obs) :: Seen(CountFor(obs, pair), LatestFor(obs, pair))
  }

  function Kept(obs: seq<Observation>, minCount: int): map<Pair, Seen> {
    var agg := Aggregated(obs);
    map pair | pair in agg && agg[pair].count >= minCount :: agg[pair]
  }

  // ---- groups -------------------------------------------------------------------------------

  datatype Group = Group(action: string, parent: string) {
    function Wildcard(): string { AttemptedScope(action, parent + "/*") }
  }

  function GroupOf(pair: Pair): Group
    requires pair.Valid()
  {
    Group(pair.action, Parent(pair.resource, '/'))
  }

  predicate AllPairsValid(kept: map<Pair, Seen>) { forall pair | pair in kept :: pair.Valid() }

  function Members(kept: map<Pair, Seen>, g: Group): set<Pair>
    requires AllPairsValid(kept)
  {
    set pair | pair in kept && GroupOf(pair) == g
  }

  /** Two or more siblings under a parent of two or more segments. */
  predicate Generalized(kept: map<Pair, Seen>, g: Group)
    requires AllPairsValid(kept)
  {
    |Members(kept, g)| >= 2 && |Split(g.parent, '/')| >= 2 && ValidGrantScope(g.Wildcard())
  }

  // ---- order --------------------------------------------------------------------------------

  predicate Less(a: string, b: string) {
    if b == "" then false
    else if a == "" then true
    else a[0] < b[0] || (a[0] == b[0] && Less(a[1..], b[1..]))
  }

  lemma {:induction false} LessTotal(a: string, b: string)
    ensures a != b ==> Less(a, b) || Less(b, a)
    ensures Less(a, b) ==> a != b && !Less(b, a)
    decreases |a|
  {
    if a != "" && b != "" {
      LessTotal(a[1..], b[1..]);
      assert a == [a[0]] + a[1..] && b == [b[0]] + b[1..];
    }
  }

  lemma {:induction false} LessTransitive(a: string, b: string, c: string)
    requires Less(a, b) && Less(b, c)
    ensures Less(a, c)
    decreases |a|
  {
    if a != "" && a[0] == b[0] == c[0] { LessTransitive(a[1..], b[1..], c[1..]); }
  }

  predicate Ascending(s: seq<string>) { forall i, j | 0 <= i < j < |s| :: Less(s[i], s[j]) }

  /** An ascending sequence is determined by its elements. */
  lemma {:induction false} AscendingUnique(a: seq<string>, b: seq<string>)
    requires Ascending(a) && Ascending(b) && forall s :: s in a <==> s in b
    ensures a == b
    decreases |a|
  {
    SameEmptiness(a, b);
    if a != [] {
      assert a[0] in b && b[0] in a by { assert a[0] in a; }
      var i :| 0 <= i < |b| && b[i] == a[0];
      var j :| 0 <= j < |a| && a[j] == b[0];
      if i > 0 && j > 0 { LessTotal(a[0], b[0]); }
      if i > 0 { LessTotal(b[0], b[i]); }
      if j > 0 { LessTotal(a[0], a[j]); }
      assert a[0] == b[0];
      RestHasRest(a, b);
      AscendingUnique(a[1..], b[1..]);
      assert a == [a[0]] + a[1..] && b == [b[0]] + b[1..];
    }
  }

  lemma SameEmptiness(a: seq<string>, b: seq<string>)
    requires forall s :: s in a <==> s in b
    ensures a == [] <==> b == []
  {
    if a != [] { assert a[0] in a; }
    if b != [] { assert b[0] in b; }
  }

  lemma RestHasRest(a: seq<string>, b: seq<string>)
    requires a != [] && b != [] && a[0] == b[0] && Ascending(a) && Ascending(b) && forall s :: s in a <==> s in b
    ensures forall s :: s in a[1..] <==> s in b[1..]
  {
    forall s ensures s in a[1..] <==> s in b[1..] {
      if s in a[1..] {
        var i :| 0 < i < |a| && a[i] == s;
        LessTotal(a[0], s);
        assert s in a && s in b;
      }
      if s in b[1..] {
        var i :| 0 < i < |b| && b[i] == s;
        LessTotal(b[0], s);
        assert s in b && s in a;
      }
    }
  }

  // ---- what is proposed ---------------------------------------------------------------------

  /** The kept pair a scope stands for. */
  function PairOf(scope: string): Pair { Pair(ActionOf(scope), ResourceOf(scope)) }

  predicate Covered(kept: map<Pair, Seen>, covers: seq<string>) {
    forall s | s in covers :: PairOf(s) in kept && PairOf(s).AsScope() == s
  }

  function CoveredCount(kept: map<Pair, Seen>, covers: seq<string>): int
    requires Covered(kept, covers)
  {
    if covers == [] then 0
    else CoveredCount(kept, covers[..|covers| - 1]) + kept[PairOf(covers[|covers| - 1])].count
  }

  function CoveredLatest(kept: map<Pair, Seen>, covers: seq<string>): Option<int>
    requires Covered(kept, covers)
  {
    if covers == [] then None
    else Latest(CoveredLatest(kept, covers[..|covers| - 1]), kept[PairOf(covers[|covers| - 1])].lastSeen)
  }

  /** The scopes of a set of pairs, in ascending order. */
  ghost predicate ListsScopes(covers: seq<string>, pairs: set<Pair>) {
    Ascending(covers) && forall s :: s in covers <==> exists pair | pair in pairs :: pair.AsScope() == s
  }

  /** One proposal over the given pairs: it lists them all and carries their total and their latest sighting. */
  ghost predicate Proposes(kept: map<Pair, Seen>, p: Proposal, pairs: set<Pair>, scope: string, generalized: bool) {
    && p.scope == scope && p.generalized == generalized && ListsScopes(p.covers, pairs)
    && Covered(kept, p.covers)
    && p.count == CoveredCount(kept, p.covers) && p.lastSeen == CoveredLatest(kept, p.covers)
  }

  /** A kept pair is proposed by itself unless its group is generalized. */
  predicate StandsAlone(kept: map<Pair, Seen>, pair: Pair, generalize: bool)
    requires AllPairsValid(kept)
  {
    pair in kept && !(generalize && Generalized(kept, GroupOf(pair)))
  }

  /** A proposal for one of these pairs, by itself or through its group. */
  ghost predicate ProposalFor(kept: map<Pair, Seen>, generalize: bool, p: Proposal, pairs: set<Pair>)
    requires AllPairsValid(kept) && pairs <= kept.Keys
  {
    || (exists pair | pair in pairs ::
      StandsAlone(kept, pair, generalize) && Proposes(kept, p, {pair}, pair.AsScope(), false))
    || (generalize && exists pair | pair in pairs ::
      Generalized(kept, GroupOf(pair)) && WildcardProposal(kept, p, GroupOf(pair)))
  }

  ghost predicate WildcardProposal(kept: map<Pair, Seen>, p: Proposal, g: Group)
    requires AllPairsValid(kept)
  {
    Proposes(kept, p, Members(kept, g), g.Wildcard(), true)
  }

  predicate SortedByScope(ps: seq<Proposal>) { forall i, j | 0 <= i < j < |ps| :: Less(ps[i].scope, ps[j].scope) }

  /** Exactly the proposals for the kept pairs, in scope order. */
  ghost predicate Describes(kept: map<Pair, Seen>, generalize: bool, ps: seq<Proposal>)
    requires AllPairsValid(kept)
  {
    SortedByScope(ps) && forall p :: p in ps <==> ProposalFor(kept, generalize, p, kept.Keys)
  }

  // ---- collecting ---------------------------------------------------------------------------

  lemma AggregatedOneMore(obs: seq<Observation>, o: Observation)
    ensures var before, after := Aggregated(obs), Aggregated(obs + [o]);
      var seen := if o.pair in before then before[o.pair] else Seen(0, None);
      var grown := Seen(seen.count + o.count, Latest(seen.lastSeen, o.lastSeen));
      after == if o.pair.Valid() then before[o.pair := grown] else before
  {
    hide Requested;
    var all := obs + [o];
    assert all[..|all| - 1] == obs;
    NeverSeen(obs, o.pair);
    assert ValidPairs(all) == if o.pair.Valid() then ValidPairs(obs) + {o.pair} else ValidPairs(obs);
  }

  lemma {:induction false} NeverSeen(obs: seq<Observation>, pair: Pair)
    ensures pair.Valid() && pair !in ValidPairs(obs) ==> CountFor(obs, pair) == 0 && LatestFor(obs, pair).None?
  {
    hide Requested;
    if obs != [] {
      var front := obs[..|obs| - 1];
      NeverSeen(front, pair);
      assert forall o | o in front :: o in obs;
      assert obs[|obs| - 1] in obs;
    }
  }

  method Aggregate(obs: seq<Observation>) returns (agg: map<Pair, Seen>)
    ensures agg == Aggregated(obs)
  {
    hide ValidResource;
    hide Aggregated;
    agg := map[];
    NothingAggregated();
    for i := 0 to |obs|
      invariant agg == Aggregated(obs[..i])
    {
      var o := obs[i];
      assert obs[..i + 1] == obs[..i] + [o];
      AggregatedOneMore(obs[..i], o);
      if !ValidAction(o.pair.action) { continue; }
      if !ValidResource(o.pair.resource, false) { continue; }
      var seen := if o.pair in agg then agg[o.pair] else Seen(0, None);
      agg := agg[o.pair := Seen(seen.count + o.count, Latest(seen.lastSeen, o.lastSeen))];
    }
    assert obs[..|obs|] == obs;
  }

  lemma NothingAggregated()
    ensures Aggregated([]) == map[]
  {
  }

  lemma KeptValid(obs: seq<Observation>, minCount: int)
    ensures AllPairsValid(Kept(obs, minCount))
  {
    hide Requested;
  }

  // ---- scopes of pairs ----------------------------------------------------------------------

  lemma ScopeOfPair(pair: Pair)
    requires pair.Valid()
    ensures PairOf(pair.AsScope()) == pair && ValidGrantScope(pair.AsScope()) && !Scope.Wildcard(pair.resource)
    ensures Matches(pair.AsScope(), pair.action, pair.resource)
  {
    hide ValidResource;
    hide ValidGrantScope;
    hide Scope.Wildcard;
    ConcreteIsGrantable(pair.resource);
    ConcreteIsNotWildcard(pair.resource);
    GrantScopeOf(pair.action, pair.resource);
  }

  lemma WildcardOfGroup(g: Group)
    requires ValidAction(g.action)
    ensures ActionOf(g.Wildcard()) == g.action && ResourceOf(g.Wildcard()) == g.parent + "/*"
    ensures Scope.Wildcard(g.parent + "/*") && Prefix(g.parent + "/*") == g.parent + ['/']
  {
    var r := g.parent + "/*";
    PartsOfAttempted(g.action, r);
    assert r[|r| - 2..] == "/*";
    assert r[..|r| - 1] == g.parent + ['/'];
  }

  /** The wildcard of a group matches every pair of the group. */
  lemma WildcardMatchesMember(g: Group, pair: Pair)
    requires pair.Valid() && GroupOf(pair) == g && ValidGrantScope(g.Wildcard())
    ensures Matches(g.Wildcard(), pair.action, pair.resource)
  {
    hide ValidResource;
    hide ValidGrantScope;
    hide Scope.Wildcard;
    hide Prefix;
    WildcardOfGroup(g);
    MatchesParts(g.Wildcard(), pair.action, pair.resource);
    UnderParent(pair.resource);
  }

  lemma UnderParent(r: string)
    requires ValidResource(r, false)
    ensures |Split(r, '/')| >= 2 && Parent(r, '/') + ['/'] <= r
  {
    ParentAndLast(r, '/');
  }

  /** Below a parent of two plain segments the wildcard is always a valid scope: the validity test never fails. */
  lemma DeepParentGivesValidWildcard(pair: Pair)
    requires pair.Valid() && |Split(GroupOf(pair).parent, '/')| >= 2
    ensures ValidGrantScope(GroupOf(pair).Wildcard())
  {
    hide ValidGrantScope;
    var g := GroupOf(pair);
    var r := g.parent + "/*";
    ConcreteResources(pair.resource);
    ParentAndLast(pair.resource, '/');
    assert forall s | s in Split(g.parent, '/') :: s in Split(pair.resource, '/');
    PlainParentWildcard(g.parent);
    GrantScopeOf(g.action, r);
  }

  lemma PlainParentWildcard(parent: string)
    requires |Split(parent, '/')| >= 2 && forall s | s in Split(parent, '/') :: PlainSegment(s)
    ensures ValidResource(parent + "/*", true)
  {
    var r := parent + "/*";
    assert r[|r| - 2..] == "/*";
    WildcardResource(r);
    assert r[..|r| - 2] == parent;
    var segments := Split(r, '/');
    assert segments == Split(parent, '/') + ["*"];
    ConcreteResources(parent);
    StarSegments(r, parent);
  }

  lemma StarSegments(r: string, parent: string)
    requires r == parent + "/*" && ValidResource(parent, false) && Split(r, '/') == Split(parent, '/') + ["*"]
    ensures ValidResource(r, true)
  {
    var segments := Split(r, '/');
    assert segments[|segments| - 1] == "*" && "*"[0] == '*';
    assert segments[..|segments| - 1] == Split(parent, '/');
    assert r[0] == parent[0] && r[|r| - 1] == '*';
    StarIsNotPlain();
    assert forall s | s in Split(parent, '/') :: '*' !in s by {
      ConcreteResources(parent);
      assert !SegmentChar('*');
    }
  }

  // ---- sums over covered scopes -------------------------------------------------------------

  lemma CoveredAppend(kept: map<Pair, Seen>, covers: seq<string>, s: string)
    requires Covered(kept, covers) && Covered(kept, [s])
    ensures Covered(kept, covers + [s])
    ensures CoveredCount(kept, covers + [s]) == CoveredCount(kept, covers) + kept[PairOf(s)].count
    ensures CoveredLatest(kept, covers + [s]) == Latest(CoveredLatest(kept, covers), kept[PairOf(s)].lastSeen)
  {
    assert s in [s];
    assert (covers + [s])[..|covers|] == covers;
  }

  lemma CoveredParts(kept: map<Pair, Seen>, a: seq<string>, b: seq<string>)
    ensures Covered(kept, a + b) <==> Covered(kept, a) && Covered(kept, b)
  {
    hide PairOf;
    hide AttemptedScope;
    if Covered(kept, a + b) {
      forall s | s in a ensures PairOf(s) in kept && PairOf(s).AsScope() == s { assert s in a + b; }
      forall s | s in b ensures PairOf(s) in kept && PairOf(s).AsScope() == s { assert s in a + b; }
    }
  }

  /** Where a scope is inserted does not matter to the sums. */
  lemma {:induction false} CoveredInsert(kept: map<Pair, Seen>, a: seq<string>, s: string, b: seq<string>)
    requires Covered(kept, a + b) && Covered(kept, [s]) && PairOf(s) in kept
    ensures Covered(kept, a + [s] + b)
    ensures CoveredCount(kept, a + [s] + b) == CoveredCount(kept, a + b) + kept[PairOf(s)].count
    ensures CoveredLatest(kept, a + [s] + b) == Latest(CoveredLatest(kept, a + b), kept[PairOf(s)].lastSeen)
    decreases |b|
  {
    hide PairOf;
    hide Covered;
    hide CoveredCount;
    hide CoveredLatest;
    if b == [] {
      assert a + [s] + b == a + [s] && a + b == a;
      CoveredAppend(kept, a, s);
    } else {
      var front, last := b[..|b| - 1], b[|b| - 1];
      assert a + b == (a + front) + [last] && a + [s] + b == (a + [s] + front) + [last];
      CoveredParts(kept, a + front, [last]);
      SoleCovered(kept, last);
      CoveredInsert(kept, a, s, front);
      CoveredAppend(kept, a + [s] + front, last);
      CoveredAppend(kept, a + front, last);
    }
  }

  lemma SoleCovered(kept: map<Pair, Seen>, s: string)
    requires Covered(kept, [s])
    ensures PairOf(s) in kept
  {
    assert s in [s];
  }

  lemma AscendingInsert(covers: seq<string>, i: nat, s: string)
    requires Ascending(covers) && i <= |covers| && s !in covers && forall j | 0 <= j < i :: Less(covers[j], s)
    requires i < |covers| ==> !Less(covers[i], s)
    ensures Ascending(covers[..i] + [s] + covers[i..])
  {
    hide Less;
    if i < |covers| { LessTotal(s, covers[i]); }
    forall j | i < j < |covers| ensures Less(s, covers[j]) { LessTransitive(s, covers[i], covers[j]); }
  }

  method InsertScope(covers: seq<string>, s: string, ghost kept: map<Pair, Seen>) returns (longer: seq<string>)
    requires Ascending(covers) && s !in covers && Covered(kept, covers) && Covered(kept, [s]) && PairOf(s) in kept
    ensures Ascending(longer) && forall t :: t in longer <==> t in covers || t == s
    ensures Covered(kept, longer)
    ensures CoveredCount(kept, longer) == CoveredCount(kept, covers) + kept[PairOf(s)].count
    ensures CoveredLatest(kept, longer) == Latest(CoveredLatest(kept, covers), kept[PairOf(s)].lastSeen)
  {
    hide Less;
    hide Ascending;
    hide PairOf;
    hide Covered;
    hide CoveredCount;
    hide CoveredLatest;
    var i := 0;
    while i < |covers| && Less(covers[i], s)
      invariant 0 <= i <= |covers| && forall j | 0 <= j < i :: Less(covers[j], s)
    {
      i := i + 1;
    }
    longer := covers[..i] + [s] + covers[i..];
    assert covers == covers[..i] + covers[i..];
    AscendingInsert(covers, i, s);
    CoveredInsert(kept, covers[..i], s, covers[i..]);
  }

  // ---- one proposal -------------------------------------------------------------------------

  function Exact(kept: map<Pair, Seen>, pair: Pair): Proposal
    requires pair in kept
  {
    Proposal(pair.AsScope(), kept[pair].count, kept[pair].lastSeen, false, [pair.AsScope()])
  }

  /** The members' scopes in order, with their total and latest sighting. */
  method Cover(kept: map<Pair, Seen>, members: set<Pair>) returns (covers: seq<string>, total: int, latest: Option<int>)
    requires AllPairsValid(kept) && members <= kept.Keys
    ensures ListsScopes(covers, members) && Covered(kept, covers)
    ensures total == CoveredCount(kept, covers) && latest == CoveredLatest(kept, covers)
  {
    hide Requested;
    hide Covered;
    hide AttemptedScope;
    covers, total, latest := [], 0, None;
    var left := members;
    NothingCovered(kept);
    while left != {}
      invariant left <= members && Covered(kept, covers) && ListsScopes(covers, members - left)
      invariant total == CoveredCount(kept, covers) && latest == CoveredLatest(kept, covers)
    {
      var pair :| pair in left;
      OneCovered(kept, pair);
      NotYetListed(covers, members - left, pair);
      covers := InsertScope(covers, pair.AsScope(), kept);
      total := total + kept[pair].count;
      latest := Latest(latest, kept[pair].lastSeen);
      assert members - (left - {pair}) == (members - left) + {pair};
      left := left - {pair};
    }
    assert members - left == members;
  }

  lemma NothingCovered(kept: map<Pair, Seen>)
    ensures Covered(kept, []) && ListsScopes([], {}) && CoveredCount(kept, []) == 0 && CoveredLatest(kept, []).None?
  {
  }

  lemma OneCovered(kept: map<Pair, Seen>, pair: Pair)
    requires pair in kept && pair.Valid()
    ensures PairOf(pair.AsScope()) == pair && Covered(kept, [pair.AsScope()])
  {
    hide Requested;
    ScopeOfPair(pair);
  }

  lemma NotYetListed(covers: seq<string>, done: set<Pair>, pair: Pair)
    requires ListsScopes(covers, done) && pair !in done && pair.Valid() && forall d | d in done :: d.Valid()
    ensures pair.AsScope() !in covers
  {
    hide Requested;
    hide Ascending;
    ScopeOfPair(pair);
    if pair.AsScope() in covers {
      var d :| d in done && d.AsScope() == pair.AsScope();
      ScopeOfPair(d);
    }
  }

  lemma ExactIsTheProposal(kept: map<Pair, Seen>, pair: Pair, p: Proposal)
    requires pair in kept && pair.Valid()
    ensures Proposes(kept, p, {pair}, pair.AsScope(), false) <==> p == Exact(kept, pair)
  {
    hide Requested;
    hide PairOf;
    hide AttemptedScope;
    var s := pair.AsScope();
    OneCovered(kept, pair);
    OneListed(pair);
    CoveredAppend(kept, [], s);
    assert [] + [s] == [s];
    NothingCovered(kept);
    if Proposes(kept, p, {pair}, s, false) {
      AscendingUnique(p.covers, [s]);
    }
  }

  lemma OneListed(pair: Pair)
    ensures ListsScopes([pair.AsScope()], {pair})
  {
  }

  /** There is one wildcard proposal per group. */
  lemma WildcardIsTheProposal(kept: map<Pair, Seen>, g: Group, p: Proposal, q: Proposal)
    requires AllPairsValid(kept) && WildcardProposal(kept, p, g) && WildcardProposal(kept, q, g)
    ensures p == q
  {
    hide Covered;
    hide AttemptedScope;
    AscendingUnique(p.covers, q.covers);
  }

  // ---- proposals do not collide -------------------------------------------------------------

  lemma ExactScopesDiffer(kept: map<Pair, Seen>, generalize: bool, p: Proposal, pairs: set<Pair>, pair: Pair)
    requires AllPairsValid(kept) && pairs <= kept.Keys && pair in kept && pair !in pairs
    requires ProposalFor(kept, generalize, p, pairs)
    ensures p.scope != pair.AsScope()
  {
    hide ValidResource;
    hide ValidGrantScope;
    hide Proposes;
    hide Generalized;
    hide Members;
    hide Scope.Wildcard;
    hide Parent;
    ScopeOfPair(pair);
    if exists other | other in pairs ::
      StandsAlone(kept, other, generalize) && Proposes(kept, p, {other}, other.AsScope(), false) {
      var other :| other in pairs && Proposes(kept, p, {other}, other.AsScope(), false);
      ScopeOfPair(other);
      ProposedScope(kept, p, {other}, other.AsScope(), false);
    } else {
      var other :| other in pairs && WildcardProposal(kept, p, GroupOf(other));
      WildcardOfGroup(GroupOf(other));
      WildcardScope(kept, p, GroupOf(other));
    }
  }

  lemma ProposedScope(kept: map<Pair, Seen>, p: Proposal, pairs: set<Pair>, scope: string, generalized: bool)
    requires Proposes(kept, p, pairs, scope, generalized)
    ensures p.scope == scope && p.generalized == generalized
  {
  }

  lemma WildcardScope(kept: map<Pair, Seen>, p: Proposal, g: Group)
    requires AllPairsValid(kept) && WildcardProposal(kept, p, g)
    ensures p.scope == g.Wildcard() && p.generalized
  {
  }

  lemma SameWildcardSameGroup(g: Group, h: Group)
    requires ValidAction(g.action) && ValidAction(h.action) && g.Wildcard() == h.Wildcard()
    ensures g == h
  {
    hide Scope.Wildcard;
    WildcardOfGroup(g);
    WildcardOfGroup(h);
    assert g.parent == (g.parent + "/*")[..|g.parent|] && h.parent == (h.parent + "/*")[..|h.parent|];
    assert |g.parent + "/*"| == |h.parent + "/*"|;
  }

  lemma WildcardScopesDiffer(kept: map<Pair, Seen>, p: Proposal, pairs: set<Pair>, g: Group)
    requires AllPairsValid(kept) && pairs <= kept.Keys && ValidAction(g.action) && Members(kept, g) !! pairs
    requires ProposalFor(kept, true, p, pairs)
    ensures p.scope != g.Wildcard()
  {
    hide ValidResource;
    hide ValidGrantScope;
    hide Proposes;
    hide Scope.Wildcard;
    hide Parent;
    hide Generalized;
    if exists other | other in pairs ::
      StandsAlone(kept, other, true) && Proposes(kept, p, {other}, other.AsScope(), false) {
      var other :| other in pairs && Proposes(kept, p, {other}, other.AsScope(), false);
      ScopeOfPair(other);
      WildcardOfGroup(g);
      ProposedScope(kept, p, {other}, other.AsScope(), false);
    } else {
      var other :| other in pairs && WildcardProposal(kept, p, GroupOf(other));
      WildcardScope(kept, p, GroupOf(other));
      if p.scope == g.Wildcard() { SameWildcardSameGroup(g, GroupOf(other)); }
    }
  }

  // ---- collecting proposals -----------------------------------------------------------------

  method InsertProposal(ps: seq<Proposal>, p: Proposal) returns (longer: seq<Proposal>)
    requires SortedByScope(ps) && forall q | q in ps :: q.scope != p.scope
    ensures SortedByScope(longer) && forall q :: q in longer <==> q in ps || q == p
  {
    hide Less;
    var i := 0;
    while i < |ps| && Less(ps[i].scope, p.scope)
      invariant 0 <= i <= |ps| && forall j | 0 <= j < i :: Less(ps[j].scope, p.scope)
    {
      i := i + 1;
    }
    longer := ps[..i] + [p] + ps[i..];
    assert ps == ps[..i] + ps[i..];
    if i < |ps| {
      assert ps[i] in ps;
      LessTotal(p.scope, ps[i].scope);
    }
    forall j | i < j < |ps| ensures Less(p.scope, ps[j].scope) { LessTransitive(p.scope, ps[i].scope, ps[j].scope); }
  }

  lemma AddExact(kept: map<Pair, Seen>, generalize: bool, pairs: set<Pair>, pair: Pair)
    requires AllPairsValid(kept) && pairs <= kept.Keys && StandsAlone(kept, pair, generalize)
    ensures forall p :: ProposalFor(kept, generalize, p, pairs + {pair}) <==>
      ProposalFor(kept, generalize, p, pairs) || p == Exact(kept, pair)
  {
    hide Requested;
    hide Proposes;
    hide Generalized;
    hide Members;
    hide AttemptedScope;
    hide Parent;
    forall p
      ensures ProposalFor(kept, generalize, p, pairs + {pair}) <==>
        ProposalFor(kept, generalize, p, pairs) || p == Exact(kept, pair)
    {
      ExactIsTheProposal(kept, pair, p);
    }
  }

  lemma AddWildcard(kept: map<Pair, Seen>, pairs: set<Pair>, g: Group, made: Proposal)
    requires AllPairsValid(kept) && pairs <= kept.Keys && Generalized(kept, g) && WildcardProposal(kept, made, g)
    ensures forall p :: ProposalFor(kept, true, p, pairs + Members(kept, g)) <==>
      ProposalFor(kept, true, p, pairs) || p == made
  {
    hide Requested;
    hide WildcardProposal;
    hide Proposes;
    hide AttemptedScope;
    hide Parent;
    SomeMember(kept, g);
    hide Generalized;
    forall p
      ensures ProposalFor(kept, true, p, pairs + Members(kept, g)) <==> ProposalFor(kept, true, p, pairs) || p == made
    {
      if WildcardProposal(kept, p, g) { WildcardIsTheProposal(kept, g, p, made); }
    }
  }

  lemma SomeMember(kept: map<Pair, Seen>, g: Group)
    requires AllPairsValid(kept) && Generalized(kept, g)
    ensures exists pair | pair in kept :: pair in Members(kept, g) && GroupOf(pair) == g
  {
    hide Requested;
    hide Parent;
    var pair :| pair in Members(kept, g);
  }

  /** The proposals so far are those for the pairs dealt with. */
  ghost predicate Collected(kept: map<Pair, Seen>, generalize: bool, ps: seq<Proposal>, pairs: set<Pair>)
    requires AllPairsValid(kept) && pairs <= kept.Keys
  {
    SortedByScope(ps) && forall p :: p in ps <==> ProposalFor(kept, generalize, p, pairs)
  }

  lemma NothingCollected(kept: map<Pair, Seen>, generalize: bool)
    requires AllPairsValid(kept)
    ensures Collected(kept, generalize, [], {})
  {
  }

  method ProposeExact(kept: map<Pair, Seen>, generalize: bool, ps: seq<Proposal>, pair: Pair, ghost pairs: set<Pair>)
    returns (longer: seq<Proposal>)
    requires AllPairsValid(kept) && pairs <= kept.Keys && StandsAlone(kept, pair, generalize) && pair !in pairs
    requires Collected(kept, generalize, ps, pairs)
    ensures Collected(kept, generalize, longer, pairs + {pair})
  {
    hide Requested;
    hide ProposalFor;
    hide Generalized;
    hide AttemptedScope;
    hide SortedByScope;
    forall q | q in ps ensures q.scope != pair.AsScope() { ExactScopesDiffer(kept, generalize, q, pairs, pair); }
    longer := InsertProposal(ps, Exact(kept, pair));
    AddExact(kept, generalize, pairs, pair);
  }

  /** The dictionary of groups built from the kept pairs. */
  method GroupPairs(kept: map<Pair, Seen>) returns (groups: map<Group, set<Pair>>)
    requires AllPairsValid(kept)
    ensures forall g | g in groups :: groups[g] == Members(kept, g) && groups[g] != {}
    ensures forall pair | pair in kept :: GroupOf(pair) in groups
  {
    hide Requested;
    hide Parent;
    groups := map[];
    var left := kept.Keys;
    while left != {}
      invariant left <= kept.Keys
      invariant forall g | g in groups :: groups[g] == Members(kept, g) - left && groups[g] != {}
      invariant forall pair | pair in kept && pair !in left :: GroupOf(pair) in groups
    {
      var pair :| pair in left;
      var g := GroupOf(pair);
      FreshGroup(kept, left, groups, g);
      groups := groups[g := (if g in groups then groups[g] else {}) + {pair}];
      left := left - {pair};
    }
  }

  lemma FreshGroup(kept: map<Pair, Seen>, left: set<Pair>, groups: map<Group, set<Pair>>, g: Group)
    requires AllPairsValid(kept) && forall pair | pair in kept && pair !in left :: GroupOf(pair) in groups
    ensures g !in groups ==> Members(kept, g) - left == {}
  {
    hide Requested;
    hide Parent;
  }

  /** One group: a wildcard if it may be generalized, otherwise its members one by one. */
  method ProposeGroup(kept: map<Pair, Seen>, ps: seq<Proposal>, g: Group, members: set<Pair>, ghost pairs: set<Pair>)
    returns (longer: seq<Proposal>)
    requires AllPairsValid(kept) && pairs <= kept.Keys && members == Members(kept, g) && members != {}
    requires members !! pairs
    requires Collected(kept, true, ps, pairs)
    ensures Collected(kept, true, longer, pairs + members)
  {
    hide Requested;
    hide Parent;
    hide ProposalFor;
    hide SortedByScope;
    hide ValidGrantScope;
    hide AttemptedScope;
    if |members| >= 2 && |Split(g.parent, '/')| >= 2 && ValidGrantScope(g.Wildcard()) {
      var covers, total, latest := Cover(kept, members);
      var made := Proposal(g.Wildcard(), total, latest, true, covers);
      MemberAction(kept, g);
      forall q | q in ps ensures q.scope != g.Wildcard() { WildcardScopesDiffer(kept, q, pairs, g); }
      longer := InsertProposal(ps, made);
      AddWildcard(kept, pairs, g, made);
    } else {
      longer := ProposeEach(kept, ps, g, members, pairs);
    }
  }

  method ProposeEach(kept: map<Pair, Seen>, ps: seq<Proposal>, g: Group, members: set<Pair>, ghost pairs: set<Pair>)
    returns (longer: seq<Proposal>)
    requires AllPairsValid(kept) && pairs <= kept.Keys && members == Members(kept, g) && members !! pairs
    requires !Generalized(kept, g) && Collected(kept, true, ps, pairs)
    ensures Collected(kept, true, longer, pairs + members)
  {
    hide Requested;
    hide Parent;
    hide Collected;
    hide Members;
    hide StandsAlone;
    hide Generalized;
    hide AttemptedScope;
    MembersStandAlone(kept, g);
    longer := ps;
    var left := members;
    assert pairs + (members - left) == pairs;
    while left != {}
      invariant left <= members && Collected(kept, true, longer, pairs + (members - left))
    {
      var pair :| pair in left;
      longer := ProposeExact(kept, true, longer, pair, pairs + (members - left));
      assert pairs + (members - left) + {pair} == pairs + (members - (left - {pair}));
      left := left - {pair};
    }
    assert pairs + (members - left) == pairs + members;
  }

  lemma MembersStandAlone(kept: map<Pair, Seen>, g: Group)
    requires AllPairsValid(kept) && !Generalized(kept, g)
    ensures Members(kept, g) <= kept.Keys && forall pair | pair in Members(kept, g) :: StandsAlone(kept, pair, true)
  {
    hide Requested;
    hide Parent;
    hide Generalized;
  }

  lemma MemberAction(kept: map<Pair, Seen>, g: Group)
    requires AllPairsValid(kept) && Members(kept, g) != {}
    ensures ValidAction(g.action)
  {
    var pair :| pair in Members(kept, g);
  }

  /** Exactly the proposals for the kept pairs, in scope order; refused for a minimum count below one. */
  method ProposeScopes(obs: seq<Observation>, generalize: bool, minCount: int) returns (r: Option<seq<Proposal>>)
    ensures minCount < 1 <==> r.None?
    ensures minCount >= 1 ==> AllPairsValid(Kept(obs, minCount)) && Describes(Kept(obs, minCount), generalize, r.value)
  {
    hide Requested;
    hide Parent;
    hide ProposalFor;
    hide SortedByScope;
    hide Aggregated;
    if minCount < 1 { return None; }
    var agg := Aggregate(obs);
    var kept := map pair | pair in agg && agg[pair].count >= minCount :: agg[pair];
    KeptValid(obs, minCount);
    NothingCollected(kept, generalize);
    var ps: seq<Proposal> := [];
    if !generalize {
      var left := kept.Keys;
      assert kept.Keys - left == {};
      while left != {}
        invariant left <= kept.Keys && Collected(kept, false, ps, kept.Keys - left)
      {
        var pair :| pair in left;
        ps := ProposeExact(kept, false, ps, pair, kept.Keys - left);
        assert kept.Keys - left + {pair} == kept.Keys - (left - {pair});
        left := left - {pair};
      }
      assert kept.Keys - left == kept.Keys;
      return Some(ps);
    }
    var groups := GroupPairs(kept);
    var left := groups.Keys;
    assert Done(kept, left) == {} by { AllToDo(kept, groups); }
    while left != {}
      invariant left <= groups.Keys && Collected(kept, true, ps, Done(kept, left))
    {
      var g :| g in left;
      ps := ProposeGroup(kept, ps, g, groups[g], Done(kept, left));
      assert Done(kept, left) + groups[g] == Done(kept, left - {g});
      left := left - {g};
    }
    assert Done(kept, left) == kept.Keys;
    return Some(ps);
  }

  /** The pairs whose group is no longer to be dealt with. */
  ghost function Done(kept: map<Pair, Seen>, left: set<Group>): set<Pair>
    requires AllPairsValid(kept)
  {
    set pair | pair in kept && GroupOf(pair) !in left
  }

  lemma AllToDo(kept: map<Pair, Seen>, groups: map<Group, set<Pair>>)
    requires AllPairsValid(kept) && forall pair | pair in kept :: GroupOf(pair) in groups
    ensures Done(kept, groups.Keys) == {}
  {
    hide Requested;
    hide Parent;
  }
}
