/** What the proposals promise: independence of order, a partition of what was kept, and conserved counts. */
module ScopeInferenceTheorems {
  import opened Common
  import opened Segments
  import opened Scope
  import opened ScopeInference

  // ---- what the proposals promise -----------------------------------------------------------

  /** The kept pairs determine the result. */
  lemma DescribedOnce(kept: map<Pair, Seen>, generalize: bool, a: seq<Proposal>, b: seq<Proposal>)
    requires AllPairsValid(kept) && Describes(kept, generalize, a) && Describes(kept, generalize, b)
    ensures a == b
  {
    hide Requested;
    hide ProposalFor;
    hide Less;
    assert forall p :: p in a <==> p in b;
    var sa, sb := seq(|a|, i requires 0 <= i < |a| => a[i].scope), seq(|b|, i requires 0 <= i < |b| => b[i].scope);
    forall s ensures s in sa <==> s in sb {
      if s in sa {
        var i :| 0 <= i < |sa| && sa[i] == s;
        assert a[i] in b;
        var j :| 0 <= j < |b| && b[j] == a[i];
        assert sb[j] == s;
      }
      if s in sb {
        var i :| 0 <= i < |sb| && sb[i] == s;
        assert b[i] in a;
        var j :| 0 <= j < |a| && a[j] == b[i];
        assert sa[j] == s;
      }
    }
    AscendingUnique(sa, sb);
    forall i | 0 <= i < |a| ensures a[i] == b[i] {
      assert a[i] in b;
      var j :| 0 <= j < |b| && b[j] == a[i];
      assert sa[i] == sb[i] && sb[j] == sa[i];
      if i != j { LessTotal(b[i].scope, b[j].scope); }
    }
  }

  lemma LatestCommutes(a: Option<int>, b: Option<int>, c: Option<int>)
    ensures Latest(Latest(a, b), c) == Latest(Latest(a, c), b)
  {
  }

  lemma SeenLast(obs: seq<Observation>, o: Observation, pair: Pair)
    ensures CountFor(obs + [o], pair) == CountFor(obs, pair) + if o.pair == pair then o.count else 0
    ensures LatestFor(obs + [o], pair) ==
      if o.pair == pair then Latest(LatestFor(obs, pair), o.lastSeen) else LatestFor(obs, pair)
  {
    assert (obs + [o])[..|obs|] == obs;
  }

  /** Taking one observation out of the middle. */
  lemma {:induction false} WithoutOne(a: seq<Observation>, o: Observation, b: seq<Observation>, pair: Pair)
    ensures CountFor(a + [o] + b, pair) == CountFor(a + b, pair) + if o.pair == pair then o.count else 0
    ensures LatestFor(a + [o] + b, pair) ==
      if o.pair == pair then Latest(LatestFor(a + b, pair), o.lastSeen) else LatestFor(a + b, pair)
    decreases |b|
  {
    hide CountFor;
    hide LatestFor;
    hide Latest;
    if b == [] {
      assert a + [o] + b == a + [o] && a + b == a;
      SeenLast(a, o, pair);
    } else {
      var front, last := b[..|b| - 1], b[|b| - 1];
      assert a + [o] + b == (a + [o] + front) + [last] && a + b == (a + front) + [last];
      WithoutOne(a, o, front, pair);
      SeenLast(a + [o] + front, last, pair);
      SeenLast(a + front, last, pair);
      LatestCommutes(LatestFor(a + front, pair), o.lastSeen, last.lastSeen);
    }
  }

  /** Sums and latest sightings do not depend on the order of the observations. */
  lemma {:induction false} OrderDoesNotMatter(a: seq<Observation>, b: seq<Observation>, pair: Pair)
    requires multiset(a) == multiset(b)
    ensures CountFor(a, pair) == CountFor(b, pair) && LatestFor(a, pair) == LatestFor(b, pair)
    decreases |a|
  {
    if a == [] {
      assert |multiset(b)| == 0;
    } else {
      hide CountFor;
      hide LatestFor;
      var front, o := a[..|a| - 1], a[|a| - 1];
      assert a == front + [o] && front + [o] + [] == a && front + [] == front;
      assert o in multiset(b) by { assert o in a; }
      var i :| 0 <= i < |b| && b[i] == o;
      assert b == b[..i] + [o] + b[i + 1..];
      SameRest(front, o, b[..i], b[i + 1..]);
      WithoutOne(front, o, [], pair);
      WithoutOne(b[..i], o, b[i + 1..], pair);
      OrderDoesNotMatter(front, b[..i] + b[i + 1..], pair);
    }
  }

  lemma SameRest(front: seq<Observation>, o: Observation, left: seq<Observation>, right: seq<Observation>)
    requires multiset(front + [o]) == multiset(left + [o] + right)
    ensures multiset(front) == multiset(left + right)
  {
    assert multiset(front + [o]) == multiset(front) + multiset{o};
    assert multiset(left + [o] + right) == multiset(left) + multiset{o} + multiset(right);
    assert multiset(left + right) == multiset(left) + multiset(right);
    assert multiset(front) == multiset(front + [o]) - multiset{o};
    assert multiset(left) + multiset(right) == multiset(left + [o] + right) - multiset{o};
  }

  /** Permuting the observations changes nothing about the result. */
  lemma ResultIgnoresOrder(a: seq<Observation>, b: seq<Observation>, generalize: bool, minCount: int,
                           pa: seq<Proposal>, pb: seq<Proposal>)
    requires multiset(a) == multiset(b)
    requires AllPairsValid(Kept(a, minCount)) && Describes(Kept(a, minCount), generalize, pa)
    requires AllPairsValid(Kept(b, minCount)) && Describes(Kept(b, minCount), generalize, pb)
    ensures pa == pb
  {
    hide Requested;
    hide Describes;
    forall pair ensures CountFor(a, pair) == CountFor(b, pair) && LatestFor(a, pair) == LatestFor(b, pair) {
      OrderDoesNotMatter(a, b, pair);
    }
    assert forall o :: o in a <==> o in multiset(a);
    assert forall o :: o in b <==> o in multiset(b);
    assert ValidPairs(a) == ValidPairs(b);
    assert Kept(a, minCount) == Kept(b, minCount);
    DescribedOnce(Kept(a, minCount), generalize, pa, pb);
  }

  /** What a proposal covers: itself, or all the pairs of one group of siblings. */
  lemma ShapeOf(kept: map<Pair, Seen>, generalize: bool, p: Proposal) returns (pair: Pair)
    requires AllPairsValid(kept) && ProposalFor(kept, generalize, p, kept.Keys)
    ensures pair in kept
    ensures !p.generalized ==> StandsAlone(kept, pair, generalize) && p == Exact(kept, pair)
    ensures p.generalized ==> generalize && Generalized(kept, GroupOf(pair)) && WildcardProposal(kept, p, GroupOf(pair))
  {
    hide Requested;
    hide Parent;
    hide Generalized;
    hide Proposes;
    hide AttemptedScope;
    if exists q | q in kept :: StandsAlone(kept, q, generalize) && Proposes(kept, p, {q}, q.AsScope(), false) {
      pair :| pair in kept && StandsAlone(kept, pair, generalize) && Proposes(kept, p, {pair}, pair.AsScope(), false);
      ExactIsTheProposal(kept, pair, p);
    } else {
      pair :| pair in kept && Generalized(kept, GroupOf(pair)) && WildcardProposal(kept, p, GroupOf(pair));
      WildcardScope(kept, p, GroupOf(pair));
    }
  }

  lemma WildcardCovers(kept: map<Pair, Seen>, p: Proposal, g: Group, q: Pair)
    requires AllPairsValid(kept) && WildcardProposal(kept, p, g) && q.Valid()
    ensures q.AsScope() in p.covers <==> q in Members(kept, g)
  {
    hide Requested;
    hide Parent;
    hide Covered;
    hide Ascending;
    ScopeOfPair(q);
    if q.AsScope() in p.covers {
      var m :| m in Members(kept, g) && m.AsScope() == q.AsScope();
      ScopeOfPair(m);
    }
  }

  /** Every proposal is a valid scope and matches everything it covers. */
  lemma ProposalsMatchWhatTheyCover(kept: map<Pair, Seen>, generalize: bool, ps: seq<Proposal>, p: Proposal, q: Pair)
    requires AllPairsValid(kept) && Describes(kept, generalize, ps) && p in ps
    ensures ValidGrantScope(p.scope)
    ensures q.Valid() && q.AsScope() in p.covers ==> q in kept && Matches(p.scope, q.action, q.resource)
  {
    hide Requested;
    hide Parent;
    hide Proposes;
    hide ValidGrantScope;
    hide AttemptedScope;
    hide Matches;
    var pair := ShapeOf(kept, generalize, p);
    if p.generalized {
      WildcardScope(kept, p, GroupOf(pair));
      if q.Valid() && q.AsScope() in p.covers {
        WildcardCovers(kept, p, GroupOf(pair), q);
        WildcardMatchesMember(GroupOf(pair), q);
      }
    } else {
      ScopeOfPair(pair);
      if q.Valid() { ScopeOfPair(q); }
    }
  }

  /** The covers partition the kept pairs: each pair is covered by exactly one proposal. */
  lemma CoversPartition(kept: map<Pair, Seen>, generalize: bool, ps: seq<Proposal>, q: Pair)
    requires AllPairsValid(kept) && Describes(kept, generalize, ps) && q in kept
    ensures exists p | p in ps :: q.AsScope() in p.covers
    ensures forall p, p' | p in ps && p' in ps && q.AsScope() in p.covers && q.AsScope() in p'.covers :: p == p'
  {
    hide Requested;
    hide Parent;
    hide Proposes;
    hide Generalized;
    hide AttemptedScope;
    hide SortedByScope;
    CoveredSomewhere(kept, generalize, ps, q);
    forall p, p' | p in ps && p' in ps && q.AsScope() in p.covers && q.AsScope() in p'.covers ensures p == p' {
      CoveringShape(kept, generalize, p, q);
      CoveringShape(kept, generalize, p', q);
      if p.generalized && p'.generalized { WildcardIsTheProposal(kept, GroupOf(q), p, p'); }
    }
  }

  /** A proposal that covers q is q's own, or that of q's generalized group. */
  lemma CoveringShape(kept: map<Pair, Seen>, generalize: bool, p: Proposal, q: Pair)
    requires AllPairsValid(kept) && ProposalFor(kept, generalize, p, kept.Keys) && q in kept && q.AsScope() in p.covers
    ensures !p.generalized ==> StandsAlone(kept, q, generalize) && p == Exact(kept, q)
    ensures p.generalized ==> generalize && Generalized(kept, GroupOf(q)) && WildcardProposal(kept, p, GroupOf(q))
  {
    hide Requested;
    hide Parent;
    hide Proposes;
    hide Generalized;
    hide AttemptedScope;
    hide ProposalFor;
    var pair := ShapeOf(kept, generalize, p);
    if p.generalized {
      WildcardCovers(kept, p, GroupOf(pair), q);
    } else {
      ScopeOfPair(pair);
      ScopeOfPair(q);
    }
  }

  lemma CoveredSomewhere(kept: map<Pair, Seen>, generalize: bool, ps: seq<Proposal>, q: Pair)
    requires AllPairsValid(kept) && Describes(kept, generalize, ps) && q in kept
    ensures exists p | p in ps :: q.AsScope() in p.covers
  {
    hide Requested;
    hide Parent;
    hide AttemptedScope;
    hide SortedByScope;
    hide Covered;
    hide ValidGrantScope;
    if StandsAlone(kept, q, generalize) {
      ExactIsTheProposal(kept, q, Exact(kept, q));
      assert Exact(kept, q) in ps;
    } else {
      var p := MadeFor(kept, GroupOf(q));
      assert p in ps;
      WildcardCovers(kept, p, GroupOf(q), q);
    }
  }

  /** The wildcard proposal of a group exists. */
  lemma MadeFor(kept: map<Pair, Seen>, g: Group) returns (p: Proposal)
    requires AllPairsValid(kept)
    ensures WildcardProposal(kept, p, g)
  {
    hide Requested;
    hide Parent;
    hide AttemptedScope;
    var covers := ListOf(kept, Members(kept, g));
    p := Proposal(g.Wildcard(), CoveredCount(kept, covers), CoveredLatest(kept, covers), true, covers);
  }

  lemma {:induction false} ListOf(kept: map<Pair, Seen>, pairs: set<Pair>) returns (covers: seq<string>)
    requires AllPairsValid(kept) && pairs <= kept.Keys
    ensures ListsScopes(covers, pairs) && Covered(kept, covers)
    decreases |pairs|
  {
    hide Requested;
    hide AttemptedScope;
    hide Less;
    hide Ascending;
    hide Covered;
    NothingCovered(kept);
    covers := [];
    if pairs != {} {
      var pair :| pair in pairs;
      var rest := ListOf(kept, pairs - {pair});
      OneCovered(kept, pair);
      NotYetListed(rest, pairs - {pair}, pair);
      var i := PlaceFor(rest, pair.AsScope());
      AscendingInsert(rest, i, pair.AsScope());
      assert rest == rest[..i] + rest[i..];
      CoveredInsert(kept, rest[..i], pair.AsScope(), rest[i..]);
      covers := rest[..i] + [pair.AsScope()] + rest[i..];
      ListsOneMore(rest, pairs - {pair}, i, pair);
      assert (pairs - {pair}) + {pair} == pairs;
    }
  }

  lemma ListsOneMore(covers: seq<string>, pairs: set<Pair>, i: nat, pair: Pair)
    requires ListsScopes(covers, pairs) && i <= |covers| && Ascending(covers[..i] + [pair.AsScope()] + covers[i..])
    ensures ListsScopes(covers[..i] + [pair.AsScope()] + covers[i..], pairs + {pair})
  {
    hide AttemptedScope;
    hide Less;
    hide Ascending;
    var s := pair.AsScope();
    var longer := covers[..i] + [s] + covers[i..];
    assert covers == covers[..i] + covers[i..];
    assert forall t :: t in longer <==> t in covers || t == s;
    forall t ensures t in longer <==> exists q | q in pairs + {pair} :: q.AsScope() == t {
      if t == s { assert pair in pairs + {pair}; }
      if t in covers {
        var q :| q in pairs && q.AsScope() == t;
        assert q in pairs + {pair};
      }
    }
  }

  lemma {:induction false} PlaceFor(covers: seq<string>, s: string) returns (i: nat)
    ensures i <= |covers| && (forall j | 0 <= j < i :: Less(covers[j], s)) && (i < |covers| ==> !Less(covers[i], s))
  {
    i := 0;
    while i < |covers| && Less(covers[i], s)
      invariant 0 <= i <= |covers| && forall j | 0 <= j < i :: Less(covers[j], s)
    {
      i := i + 1;
    }
  }

  /** A wildcard is proposed only on request, for two or more siblings under a parent of two or more segments. */
  lemma WildcardsNeedDeepSiblings(kept: map<Pair, Seen>, generalize: bool, ps: seq<Proposal>, p: Proposal)
    requires AllPairsValid(kept) && Describes(kept, generalize, ps) && p in ps && Scope.Wildcard(ResourceOf(p.scope))
    ensures generalize && p.generalized
    ensures exists a, b | a in kept && b in kept ::
      a != b && GroupOf(a) == GroupOf(b) && GroupOf(a).Wildcard() == p.scope
              && a.AsScope() in p.covers && b.AsScope() in p.covers && |Split(GroupOf(a).parent, '/')| >= 2
  {
    hide Requested;
    hide Parent;
    hide Proposes;
    hide AttemptedScope;
    hide Scope.Wildcard;
    var pair := ShapeOf(kept, generalize, p);
    if !p.generalized { ScopeOfPair(pair); }
    WildcardScope(kept, p, GroupOf(pair));
    TwoOf(Members(kept, GroupOf(pair)));
    var a, b :| a in Members(kept, GroupOf(pair)) && b in Members(kept, GroupOf(pair)) && a != b;
    WildcardCovers(kept, p, GroupOf(pair), a);
    WildcardCovers(kept, p, GroupOf(pair), b);
  }

  lemma TwoOf(s: set<Pair>)
    requires |s| >= 2
    ensures exists a, b :: a in s && b in s && a != b
  {
    var a :| a in s;
    assert |s - {a}| >= 1;
    var b :| b in s - {a};
  }

  // ---- counts -------------------------------------------------------------------------------

  function TotalCount(ps: seq<Proposal>): int {
    if ps == [] then 0 else TotalCount(ps[..|ps| - 1]) + ps[|ps| - 1].count
  }

  function AllCovers(ps: seq<Proposal>): seq<string> {
    if ps == [] then [] else AllCovers(ps[..|ps| - 1]) + ps[|ps| - 1].covers
  }

  lemma {:induction false} CountsAdd(kept: map<Pair, Seen>, a: seq<string>, b: seq<string>)
    requires Covered(kept, a) && Covered(kept, b)
    ensures Covered(kept, a + b) && CoveredCount(kept, a + b) == CoveredCount(kept, a) + CoveredCount(kept, b)
    decreases |b|
  {
    hide PairOf;
    hide Covered;
    hide CoveredCount;
    hide CoveredLatest;
    CoveredParts(kept, a, b);
    if b == [] {
      assert a + b == a;
      NothingCovered(kept);
    } else {
      var front, last := b[..|b| - 1], b[|b| - 1];
      assert b == front + [last] && a + b == (a + front) + [last];
      CoveredParts(kept, front, [last]);
      SoleCovered(kept, last);
      CountsAdd(kept, a, front);
      CoveredAppend(kept, front, last);
      CoveredAppend(kept, a + front, last);
    }
  }

  lemma {:induction false} TotalIsCovered(kept: map<Pair, Seen>, ps: seq<Proposal>)
    requires forall p | p in ps :: Covered(kept, p.covers) && p.count == CoveredCount(kept, p.covers)
    ensures Covered(kept, AllCovers(ps)) && TotalCount(ps) == CoveredCount(kept, AllCovers(ps))
    decreases |ps|
  {
    hide Covered;
    hide CoveredCount;
    NothingCovered(kept);
    if ps != [] {
      var front := ps[..|ps| - 1];
      assert forall p | p in front :: p in ps;
      TotalIsCovered(kept, front);
      CountsAdd(kept, AllCovers(front), ps[|ps| - 1].covers);
    }
  }

  lemma {:induction false} ListedOnce(covers: seq<string>, s: string)
    requires Ascending(covers)
    ensures multiset(covers)[s] == if s in covers then 1 else 0
    decreases |covers|
  {
    hide Less;
    if covers != [] {
      var front, last := covers[..|covers| - 1], covers[|covers| - 1];
      ListedOnce(front, s);
      assert covers == front + [last];
      if last in front {
        var i :| 0 <= i < |front| && front[i] == last;
        LessTotal(covers[i], covers[|covers| - 1]);
      }
    }
  }

  lemma {:induction false} Multiplicity(ps: seq<Proposal>, s: string)
    requires forall p | p in ps :: Ascending(p.covers)
    requires forall i, j | 0 <= i < j < |ps| :: s !in ps[i].covers || s !in ps[j].covers
    ensures multiset(AllCovers(ps))[s] == if exists p | p in ps :: s in p.covers then 1 else 0
    decreases |ps|
  {
    hide Ascending;
    if ps != [] {
      var front, last := ps[..|ps| - 1], ps[|ps| - 1];
      assert forall p :: p in ps <==> p in front || p == last;
      Multiplicity(front, s);
      ListedOnce(last.covers, s);
      assert s in last.covers ==> forall p | p in front :: s !in p.covers;
    }
  }

  lemma CoversAreListed(kept: map<Pair, Seen>, generalize: bool, p: Proposal)
    requires AllPairsValid(kept) && ProposalFor(kept, generalize, p, kept.Keys)
    ensures Ascending(p.covers) && Covered(kept, p.covers) && p.count == CoveredCount(kept, p.covers)
  {
    hide Requested;
    hide Parent;
    hide Generalized;
    hide AttemptedScope;
    hide Covered;
    hide Ascending;
  }

  /** Counts are conserved: the proposals' counts add up to the counts of all kept pairs, each taken once. */
  lemma CountsConserved(kept: map<Pair, Seen>, generalize: bool, ps: seq<Proposal>)
    requires AllPairsValid(kept) && Describes(kept, generalize, ps)
    ensures Covered(kept, AllCovers(ps)) && TotalCount(ps) == CoveredCount(kept, AllCovers(ps))
    ensures forall q | q in kept :: multiset(AllCovers(ps))[q.AsScope()] == 1
  {
    hide Requested;
    hide ProposalFor;
    hide AttemptedScope;
    hide Covered;
    hide Ascending;
    hide Less;
    forall p | p in ps
      ensures Ascending(p.covers) && Covered(kept, p.covers) && p.count == CoveredCount(kept, p.covers)
    {
      CoversAreListed(kept, generalize, p);
    }
    TotalIsCovered(kept, ps);
    forall q | q in kept ensures multiset(AllCovers(ps))[q.AsScope()] == 1 {
      CoversPartition(kept, generalize, ps, q);
      var s := q.AsScope();
      forall i, j | 0 <= i < j < |ps| ensures s !in ps[i].covers || s !in ps[j].covers {
        if s in ps[i].covers && s in ps[j].covers {
          assert ps[i] == ps[j];
          LessTotal(ps[i].scope, ps[j].scope);
        }
      }
      Multiplicity(ps, s);
    }
  }

  // ---- from the observations to the proposals -----------------------------------------------

  /** The order of the proposals: at the first difference the smaller character, and a prefix before what it begins. */
  lemma {:induction false} LessIsLexicographic(a: string, b: string)
    ensures Less(a, b) <==> a < b || exists i | 0 <= i < |a| && i < |b| :: a[..i] == b[..i] && a[i] < b[i]
    decreases |a|
  {
    if a != "" && b != "" && a[0] == b[0] {
      LessIsLexicographic(a[1..], b[1..]);
      assert a == [a[0]] + a[1..] && b == [b[0]] + b[1..];
      if i :| 0 <= i < |a[1..]| && i < |b[1..]| && a[1..][..i] == b[1..][..i] && a[1..][i] < b[1..][i] {
        assert a[..i + 1] == [a[0]] + a[1..][..i] && b[..i + 1] == [b[0]] + b[1..][..i];
        assert a[i + 1] < b[i + 1];
      }
      if i :| 0 <= i < |a| && i < |b| && a[..i] == b[..i] && a[i] < b[i] {
        assert a[1..][..i - 1] == a[..i][1..] && b[1..][..i - 1] == b[..i][1..];
        assert a[1..][i - 1] < b[1..][i - 1];
      }
    } else if a != "" && b != "" {
      assert a[..0] == b[..0];
      assert forall i | 0 < i < |a| && i < |b| :: a[..i][0] != b[..i][0];
    }
  }

  /** The sightings of one pair. */
  predicate SeenAt(obs: seq<Observation>, pair: Pair, t: int) {
    exists o | o in obs :: o.pair == pair && o.lastSeen == Some(t)
  }

  /** The latest sighting is the greatest of them; without a dated one there is none. */
  lemma {:induction false} LatestIsGreatest(obs: seq<Observation>, pair: Pair)
    ensures LatestFor(obs, pair).None? <==> forall t :: !SeenAt(obs, pair, t)
    ensures LatestFor(obs, pair).Some? ==>
      && SeenAt(obs, pair, LatestFor(obs, pair).value)
      && forall t | SeenAt(obs, pair, t) :: t <= LatestFor(obs, pair).value
    decreases |obs|
  {
    if obs != [] {
      var front, last := obs[..|obs| - 1], obs[|obs| - 1];
      LatestIsGreatest(front, pair);
      assert forall o :: o in obs <==> o in front || o == last;
      assert forall t ::
          SeenAt(obs, pair, t) <==> SeenAt(front, pair, t) || (last.pair == pair && last.lastSeen == Some(t));
    }
  }

  lemma {:induction false} CountsOfParts(a: seq<Observation>, b: seq<Observation>, pair: Pair)
    ensures CountFor(a + b, pair) == CountFor(a, pair) + CountFor(b, pair)
    decreases |b|
  {
    if b == [] {
      assert a + b == a;
    } else {
      var front, last := b[..|b| - 1], b[|b| - 1];
      CountsOfParts(a, front, pair);
      assert a + b == (a + front) + [last] && b == front + [last];
      SeenLast(a + front, last, pair);
    }
  }

  /** What is kept: the valid observed pairs that were counted often enough, with the count and the latest sighting.
      Counts are sums: one observation counts for its own pair, and the counts of two lists add up. */
  lemma KeptExactly(obs: seq<Observation>, more: seq<Observation>, minCount: int, pair: Pair)
    ensures pair in Kept(obs, minCount) <==>
      Requested(pair.action, pair.resource) && CountFor(obs, pair) >= minCount && exists o | o in obs :: o.pair == pair
    ensures pair in Kept(obs, minCount) ==> Kept(obs, minCount)[pair] == Seen(CountFor(obs, pair), LatestFor(obs, pair))
    ensures CountFor([], pair) == 0 && CountFor(obs + more, pair) == CountFor(obs, pair) + CountFor(more, pair)
    ensures forall o: Observation :: CountFor([o], pair) == if o.pair == pair then o.count else 0
  {
    hide Requested;
    CountsOfParts(obs, more, pair);
    forall o: Observation ensures CountFor([o], pair) == if o.pair == pair then o.count else 0 {
      SeenLast([], o, pair);
      assert [] + [o] == [o];
    }
  }

  /** All that was counted for the pairs of these scopes. */
  function CountOver(obs: seq<Observation>, scopes: seq<string>): int {
    if obs == [] then 0
    else
      var last := obs[|obs| - 1];
      CountOver(obs[..|obs| - 1], scopes) + if last.pair.Valid() && last.pair.AsScope() in scopes then last.count else 0
  }

  lemma {:induction false} OneScopeMore(obs: seq<Observation>, scopes: seq<string>, pair: Pair)
    requires pair.Valid() && pair.AsScope() !in scopes
    ensures CountOver(obs, scopes + [pair.AsScope()]) == CountOver(obs, scopes) + CountFor(obs, pair)
    decreases |obs|
  {
    hide Requested;
    hide AttemptedScope;
    if obs != [] {
      var last := obs[|obs| - 1];
      OneScopeMore(obs[..|obs| - 1], scopes, pair);
      ScopeOfPair(pair);
      if last.pair.Valid() { ScopeOfPair(last.pair); }
    }
  }

  lemma {:induction false} CoveredCountExactly(obs: seq<Observation>, minCount: int, covers: seq<string>)
    requires Covered(Kept(obs, minCount), covers) && Ascending(covers)
    ensures CoveredCount(Kept(obs, minCount), covers) == CountOver(obs, covers)
    decreases |covers|
  {
    hide Requested;
    hide PairOf;
    hide AttemptedScope;
    hide Less;
    hide Kept;
    if covers == [] {
      NothingOver(obs);
    } else {
      var front, last := covers[..|covers| - 1], covers[|covers| - 1];
      assert covers == front + [last];
      CoveredCountExactly(obs, minCount, front);
      KeptExactly(obs, [], minCount, PairOf(last));
      if last in front {
        var i :| 0 <= i < |front| && front[i] == last;
        LessTotal(covers[i], covers[|covers| - 1]);
      }
      OneScopeMore(obs, front, PairOf(last));
    }
  }

  lemma {:induction false} CoveredLatestExactly(obs: seq<Observation>, minCount: int, covers: seq<string>)
    requires Covered(Kept(obs, minCount), covers)
    ensures var latest := CoveredLatest(Kept(obs, minCount), covers);
      && (latest.None? <==> forall s, t | s in covers :: !SeenAt(obs, PairOf(s), t))
      && (latest.Some? ==>
            && (exists s | s in covers :: SeenAt(obs, PairOf(s), latest.value))
            && forall s, t | s in covers && SeenAt(obs, PairOf(s), t) :: t <= latest.value)
    decreases |covers|
  {
    hide PairOf;
    hide AttemptedScope;
    hide SeenAt;
    hide Kept;
    if covers != [] {
      var front, last := covers[..|covers| - 1], covers[|covers| - 1];
      assert forall s :: s in covers <==> s in front || s == last;
      CoveredLatestExactly(obs, minCount, front);
      KeptExactly(obs, [], minCount, PairOf(last));
      LatestIsGreatest(obs, PairOf(last));
    }
  }

  lemma {:induction false} NothingOver(obs: seq<Observation>)
    ensures CountOver(obs, []) == 0
    decreases |obs|
  {
    if obs != [] { NothingOver(obs[..|obs| - 1]); }
  }

  /** What a proposal reports about the observations: the total of all counted under the scopes it covers, and the
      latest sighting of any of them. */
  lemma ProposalReportsWhatItCovers(obs: seq<Observation>, generalize: bool, minCount: int, ps: seq<Proposal>,
                                    p: Proposal)
    requires AllPairsValid(Kept(obs, minCount)) && Describes(Kept(obs, minCount), generalize, ps) && p in ps
    ensures p.count == CountOver(obs, p.covers)
    ensures p.lastSeen.None? <==> forall s, t | s in p.covers :: !SeenAt(obs, PairOf(s), t)
    ensures p.lastSeen.Some? ==>
      && (exists s | s in p.covers :: SeenAt(obs, PairOf(s), p.lastSeen.value))
      && forall s, t | s in p.covers && SeenAt(obs, PairOf(s), t) :: t <= p.lastSeen.value
  {
    hide Requested;
    hide Parent;
    hide Generalized;
    hide AttemptedScope;
    hide Kept;
    hide SeenAt;
    hide PairOf;
    hide Ascending;
    hide ProposalFor;
    var kept := Kept(obs, minCount);
    CoversAreListed(kept, generalize, p);
    CoveredCountExactly(obs, minCount, p.covers);
    CoveredLatestExactly(obs, minCount, p.covers);
    LatestCovered(kept, generalize, p);
  }

  lemma LatestCovered(kept: map<Pair, Seen>, generalize: bool, p: Proposal)
    requires AllPairsValid(kept) && ProposalFor(kept, generalize, p, kept.Keys)
    ensures Covered(kept, p.covers) && p.lastSeen == CoveredLatest(kept, p.covers)
  {
    hide Requested;
    hide Parent;
    hide Generalized;
    hide AttemptedScope;
    hide Covered;
    hide Ascending;
  }

  /** Kept siblings: the same action, and the same segments up to the last. */
  predicate Siblings(q: Pair, r: Pair) {
    var a, b := Split(q.resource, '/'), Split(r.resource, '/');
    q.action == r.action && a[..|a| - 1] == b[..|b| - 1]
  }

  lemma SiblingsShareTheGroup(q: Pair, r: Pair)
    requires q.Valid() && r.Valid()
    ensures GroupOf(q) == GroupOf(r) <==> Siblings(q, r)
    ensures |Split(GroupOf(q).parent, '/')| == |Split(q.resource, '/')| - 1
  {
    hide ValidGrantScope;
    hide Split;
    UnderParent(q.resource);
    UnderParent(r.resource);
    ParentAndLast(q.resource, '/');
    ParentAndLast(r.resource, '/');
    if Siblings(q, r) { SplitInjective(GroupOf(q).parent, GroupOf(r).parent, '/'); }
  }

  /** When a group is generalized, in terms of the kept pairs alone. */
  lemma GeneralizedExactly(kept: map<Pair, Seen>, q: Pair)
    requires AllPairsValid(kept) && q in kept
    ensures Generalized(kept, GroupOf(q)) <==>
      |Split(q.resource, '/')| >= 3 && exists r | r in kept :: r != q && Siblings(q, r)
  {
    hide Requested;
    hide Parent;
    hide Siblings;
    hide ValidGrantScope;
    hide Split;
    var members := Members(kept, GroupOf(q));
    assert q in members;
    forall r | r in kept ensures r in members <==> Siblings(q, r) { SiblingsShareTheGroup(q, r); }
    SiblingsShareTheGroup(q, q);
    if |members| >= 2 {
      TwoOf(members);
      var a, b :| a in members && b in members && a != b;
    }
    if r :| r in kept && r != q && Siblings(q, r) {
      assert {q, r} <= members;
      AtLeastTwo(members, q, r);
    }
    if |Split(q.resource, '/')| >= 3 { DeepParentGivesValidWildcard(q); }
  }

  lemma AtLeastTwo(s: set<Pair>, q: Pair, r: Pair)
    requires q in s && r in s && q != r
    ensures |s| >= 2
  {
    assert r in s - {q} && |s - {q}| == |s| - 1;
  }

  /** How a kept pair is proposed. With generalization, three or more segments and a kept sibling it is covered by
      one wildcard over its action and its parent, which covers exactly the pair and its siblings; otherwise it is
      proposed by itself with its own count and sighting, and no wildcard covers it. */
  lemma ProposedExactly(kept: map<Pair, Seen>, generalize: bool, ps: seq<Proposal>, q: Pair) returns (p: Proposal)
    requires AllPairsValid(kept) && Describes(kept, generalize, ps) && q in kept
    ensures p in ps && q.AsScope() in p.covers
    ensures forall other | other in ps && q.AsScope() in other.covers :: other == p
    ensures p.generalized <==>
      generalize && |Split(q.resource, '/')| >= 3 && exists r | r in kept :: r != q && Siblings(q, r)
    ensures p.generalized ==>
      && (forall r | r in kept :: r.AsScope() in p.covers <==> Siblings(q, r))
      && exists parent: string, last: string ::
           '/' !in last && q.resource == parent + "/" + last && p.scope == q.action + ":" + parent + "/*"
    ensures !p.generalized ==>
      p == Proposal(q.AsScope(), kept[q].count, kept[q].lastSeen, false, [q.action + ":" + q.resource])
  {
    hide Requested;
    hide Parent;
    hide Siblings;
    hide Split;
    hide Generalized;
    hide Describes;
    hide ProposalFor;
    hide WildcardProposal;
    CoversPartition(kept, generalize, ps, q);
    p :| p in ps && q.AsScope() in p.covers;
    ProposalOf(kept, generalize, ps, p);
    CoveringShape(kept, generalize, p, q);
    GeneralizedExactly(kept, q);
    if p.generalized {
      forall r | r in kept ensures r.AsScope() in p.covers <==> Siblings(q, r) {
        WildcardCovers(kept, p, GroupOf(q), r);
        SiblingsShareTheGroup(q, r);
      }
      WildcardScope(kept, p, GroupOf(q));
      WildcardText(q);
    }
  }

  lemma ProposalOf(kept: map<Pair, Seen>, generalize: bool, ps: seq<Proposal>, p: Proposal)
    requires AllPairsValid(kept) && Describes(kept, generalize, ps) && p in ps
    ensures ProposalFor(kept, generalize, p, kept.Keys)
  {
    hide Requested;
    hide ProposalFor;
  }

  lemma WildcardText(q: Pair)
    requires q.Valid()
    ensures exists parent: string, last: string ::
      '/' !in last && q.resource == parent + "/" + last && GroupOf(q).Wildcard() == q.action + ":" + parent + "/*"
  {
    hide ValidGrantScope;
    hide Split;
    UnderParent(q.resource);
    ParentAndLast(q.resource, '/');
    var parts := Split(q.resource, '/');
    var parent, last := GroupOf(q).parent, parts[|parts| - 1];
    assert last in parts;
    assert q.resource == parent + "/" + last;
    assert q.action + ":" + parent + "/*" == q.action + ":" + (parent + "/*");
  }
}
