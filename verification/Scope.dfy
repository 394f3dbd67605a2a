/** Grant scopes: which are valid, what they match, and when one subsumes another. */
module Scope {
  import opened Common
  import opened Segments

  const ALLOWED_ACTIONS := {"read", "write", "execute", "deploy", "delete", "send"}

  function AttemptedScope(action: string, resource: string): string { action + ":" + resource }

  /** The resource-segment pattern. */
  predicate SegmentChar(c: char) {
    'A' <= c <= 'Z' || 'a' <= c <= 'z' || '0' <= c <= '9' || c == '.' || c == '_' || c == '-'
  }

  predicate PatternSegment(s: string) { s != "" && forall c | c in s :: SegmentChar(c) }

  predicate ValidResource(resource: string, allowTerminalWildcard: bool) {
    && resource != ""
    && '\0' !in resource && '\\' !in resource && ':' !in resource
    && resource[0] != '/' && resource[|resource| - 1] != '/'
    && var segments := Split(resource, '/');
    && |segments| >= 2
    && (forall s | s in segments :: s != "" && s != "." && s != "..")
    && if exists s | s in segments :: '*' in s then
         && allowTerminalWildcard
         && (forall s | s in segments[..|segments| - 1] :: '*' !in s)
         && segments[|segments| - 1] == "*" && |segments| >= 3
       else forall s | s in segments :: PatternSegment(s)
  }

  predicate ValidAction(action: string) { action in ALLOWED_ACTIONS }

  /** A concrete request: no wildcard anywhere. */
  predicate Requested(action: string, resource: string) { ValidAction(action) && ValidResource(resource, false) }

  predicate ValidGrantScope(scope: string) {
    var parts := Split(scope, ':');
    |parts| == 2 && ValidAction(parts[0]) && ValidResource(parts[1], true)
  }

  predicate MatchesTerminalWildcard(scope: string, action: string, resource: string) {
    var (scopeAction, scopeResource) := Partition(scope, ':');
    && scopeResource.Some? && scopeAction == action
    && EndsWith(scopeResource.value, "/*")
    && scopeResource.value[..|scopeResource.value| - 1] <= resource
  }

  predicate Matches(scope: string, action: string, resource: string) {
    scope == AttemptedScope(action, resource) || MatchesTerminalWildcard(scope, action, resource)
  }

  /** The scope stands in the list before every other that matches. */
  predicate FirstMatching(scopes: seq<string>, scope: string, action: string, resource: string) {
    && Matches(scope, action, resource)
    && exists i | 0 <= i < |scopes| ::
      scopes[i] == scope && forall j | 0 <= j < i :: !Matches(scopes[j], action, resource)
  }

  /** The first scope that matches. */
  function MatchScope(scopes: seq<string>, action: string, resource: string): (matched: Option<string>)
    ensures matched.Some? ==> FirstMatching(scopes, matched.value, action, resource)
    ensures matched.Some? ==> matched.value in scopes && Matches(matched.value, action, resource)
    ensures matched.None? ==> forall s | s in scopes :: !Matches(s, action, resource)
  {
    if scopes == [] then None
    else if Matches(scopes[0], action, resource) then Some(scopes[0])
    else
      var rest := MatchScope(scopes[1..], action, resource);
      assert rest.Some? ==> FirstMatching(scopes, rest.value, action, resource) by {
        if rest.Some? { MatchesLater(scopes, rest.value, action, resource); }
      }
      rest
  }

  lemma MatchesLater(scopes: seq<string>, scope: string, action: string, resource: string)
    requires scopes != [] && !Matches(scopes[0], action, resource)
    requires FirstMatching(scopes[1..], scope, action, resource)
    ensures FirstMatching(scopes, scope, action, resource)
  {
    hide Matches;
    var rest := scopes[1..];
    var i :| 0 <= i < |rest| && rest[i] == scope && forall j | 0 <= j < i :: !Matches(rest[j], action, resource);
    assert scopes[i + 1] == scope;
    forall j | 0 <= j < i + 1 ensures !Matches(scopes[j], action, resource) {
      if j > 0 { assert scopes[j] == rest[j - 1]; }
    }
  }

  predicate Subsumes(broad: string, narrow: string) {
    if broad == narrow then true
    else if !ValidGrantScope(broad) || !ValidGrantScope(narrow) then false
    else
      var (broadAction, broadResource) := Partition(broad, ':');
      var (narrowAction, narrowResource) := Partition(narrow, ':');
      && broadResource.Some? && narrowResource.Some?
      && broadAction == narrowAction && EndsWith(broadResource.value, "/*")
      && broadResource.value[..|broadResource.value| - 1] <= narrowResource.value
  }

  // ---- the shape of valid scopes ------------------------------------------------------------

  function ActionOf(scope: string): string { Partition(scope, ':').0 }

  function ResourceOf(scope: string): string {
    var resource := Partition(scope, ':').1;
    if resource.Some? then resource.value else ""
  }

  predicate Wildcard(resource: string) { EndsWith(resource, "/*") }

  /** What a wildcard resource must be a prefix of, up to and including the separator. */
  function Prefix(resource: string): string
    requires Wildcard(resource)
  {
    resource[..|resource| - 1]
  }

  lemma ScopeParts(scope: string)
    requires ValidGrantScope(scope)
    ensures Partition(scope, ':') == (ActionOf(scope), Some(ResourceOf(scope)))
    ensures scope == AttemptedScope(ActionOf(scope), ResourceOf(scope))
    ensures ValidAction(ActionOf(scope)) && ValidResource(ResourceOf(scope), true)
  {
    hide ValidResource;
    PartitionSplits(scope, ':');
    var (head, tail) := Partition(scope, ':');
    if tail.Some? { OnlySegment(tail.value, ':'); }
  }

  lemma ActionsHaveNoColon(action: string)
    requires ValidAction(action)
    ensures ':' !in action
  {
  }

  lemma PartsOfAttempted(action: string, resource: string)
    requires ValidAction(action)
    ensures Partition(AttemptedScope(action, resource), ':') == (action, Some(resource))
  {
    ActionsHaveNoColon(action);
    PartitionOf(action, resource, ':');
  }

  lemma {:induction false} CharsComeFromSegments(r: string, c: char)
    requires c in r && c != '/'
    ensures exists s | s in Split(r, '/') :: c in s
  {
    var rest := Split(r[1..], '/');
    if r[0] == c {
      assert c in Split(r, '/')[0];
    } else {
      CharsComeFromSegments(r[1..], c);
      var s :| s in rest && c in s;
      var i :| 0 <= i < |rest| && rest[i] == s;
      if r[0] == '/' { assert Split(r, '/')[i + 1] == s; }
      else if i == 0 { assert c in Split(r, '/')[0]; }
      else { assert Split(r, '/')[i] == s; }
    }
  }

  lemma EdgesAreSegments(r: string)
    requires r != ""
    ensures r[0] == '/' ==> Split(r, '/')[0] == ""
    ensures r[|r| - 1] == '/' ==> var parts := Split(r, '/'); parts[|parts| - 1] == ""
  {
    if r[|r| - 1] == '/' {
      var a := r[..|r| - 1];
      assert r == a + ['/'] + "";
      SplitAtSeparator(a, "", '/');
    }
  }

  predicate PlainSegment(s: string) { PatternSegment(s) && s != "." && s != ".." }

  /** Concrete resources are two or more plain segments, and nothing else. */
  lemma ConcreteResources(r: string)
    ensures ValidResource(r, false) <==> |Split(r, '/')| >= 2 && forall s | s in Split(r, '/') :: PlainSegment(s)
  {
    var segments := Split(r, '/');
    if |segments| >= 2 && forall s | s in segments :: PlainSegment(s) {
      assert segments[0] in segments && segments[|segments| - 1] in segments;
      EdgesAreSegments(r);
      forall c | c in r ensures SegmentChar(c) || c == '/' {
        if c != '/' { CharsComeFromSegments(r, c); }
      }
      assert forall s | s in segments :: '*' !in s;
    }
  }

  /** The words and the letters, by their codes, that scopes are made of. */
  lemma Vocabulary(action: string, segment: string)
    ensures ValidAction(action) <==>
      || action == "read" || action == "write" || action == "execute"
      || action == "deploy" || action == "delete" || action == "send"
    ensures PlainSegment(segment) <==>
      && segment != "" && segment != "." && segment != ".."
      && forall c | c in segment ::
           65 <= c as int <= 90 || 97 <= c as int <= 122 || 48 <= c as int <= 57 || c as int == 45 || c as int == 46
           || c as int == 95
  {
  }

  /** A segment above a star: no empty or relative name, no star, and none of three characters. */
  predicate Above(s: string) {
    s != "" && s != "." && s != ".." && '*' !in s && '\0' !in s && '\\' !in s && ':' !in s
  }

  lemma StarIsHarmless()
    ensures "*" != "" && "*" != "." && "*" != ".." && '*' in "*"
    ensures '\0' !in "*" && '\\' !in "*" && ':' !in "*"
  {
    assert "*"[0] == '*' && |"*"| == 1;
  }

  predicate Harmless(s: string) { s != "" && s != "." && s != ".." && '\0' !in s && '\\' !in s && ':' !in s }

  lemma AllHarmless(front: seq<string>, segments: seq<string>)
    requires segments == front + ["*"] && forall s | s in front :: Above(s)
    ensures forall s | s in segments :: Harmless(s)
    ensures forall s | s in front :: '*' !in s
  {
    StarIsHarmless();
  }

  lemma StarBelowIsGrantable(r: string)
    requires var segments := Split(r, '/');
      && |segments| >= 3 && segments[|segments| - 1] == "*"
      && forall s | s in segments[..|segments| - 1] :: Above(s)
    ensures ValidResource(r, true)
  {
    var segments := Split(r, '/');
    var n := |segments|;
    assert segments == segments[..n - 1] + ["*"];
    AllHarmless(segments[..n - 1], segments);
    StarIsHarmless();
    assert segments[0] in segments && segments[n - 1] in segments;
    EdgesAreSegments(r);
    forall c | c in r ensures c != '\0' && c != '\\' && c != ':' {
      if c != '/' {
        CharsComeFromSegments(r, c);
        var s :| s in segments && c in s;
        assert Harmless(s);
      }
    }
  }

  lemma GrantableHasStarBelow(r: string)
    requires ValidResource(r, true) && !ValidResource(r, false)
    ensures var segments := Split(r, '/');
      && |segments| >= 3 && segments[|segments| - 1] == "*"
      && forall s | s in segments[..|segments| - 1] :: Above(s)
  {
    var segments := Split(r, '/');
    var front := segments[..|segments| - 1];
    assert exists s | s in segments :: '*' in s;
    forall s | s in front ensures Above(s) {
      assert s in segments;
      if '\0' in s { SegmentCharsAreIn(r, s, '\0'); }
      if '\\' in s { SegmentCharsAreIn(r, s, '\\'); }
      if ':' in s { SegmentCharsAreIn(r, s, ':'); }
    }
  }

  /** A grantable resource is a concrete one, or a star below two or more segments. */
  lemma GrantableResources(r: string)
    ensures ValidResource(r, true) <==>
      var segments := Split(r, '/');
      || ValidResource(r, false)
      || (|segments| >= 3 && segments[|segments| - 1] == "*"
          && forall s | s in segments[..|segments| - 1] :: Above(s))
  {
    hide Above;
    hide ValidResource;
    var segments := Split(r, '/');
    if |segments| >= 3 && segments[|segments| - 1] == "*" && forall s | s in segments[..|segments| - 1] :: Above(s) {
      StarBelowIsGrantable(r);
    }
    if ValidResource(r, true) && !ValidResource(r, false) { GrantableHasStarBelow(r); }
    if ValidResource(r, false) { ConcreteIsGrantable(r); }
  }

  /** A grantable scope is an action, a colon and a grantable resource. */
  lemma GrantableScopes(scope: string)
    ensures ValidGrantScope(scope) <==>
      exists action, resource ::
        scope == AttemptedScope(action, resource) && ValidAction(action) && ValidResource(resource, true)
  {
    hide ValidResource;
    hide ValidGrantScope;
    if ValidGrantScope(scope) {
      ScopeParts(scope);
    }
    forall action, resource | scope == AttemptedScope(action, resource) && ValidAction(action)
                              && ValidResource(resource, true)
      ensures ValidGrantScope(scope)
    {
      GrantScopeOf(action, resource);
    }
  }

  lemma {:induction false} SegmentCharsAreIn(r: string, s: string, c: char)
    requires s in Split(r, '/') && c in s
    ensures c in r
  {
    if r != "" {
      var rest := Split(r[1..], '/');
      if s in rest {
        SegmentCharsAreIn(r[1..], s, c);
      } else if r[0] != '/' {
        assert s == [r[0]] + rest[0];
        if c != r[0] { SegmentCharsAreIn(r[1..], rest[0], c); }
      }
    }
  }

  /** A wildcard resource is its parent, the separator and a star. */
  lemma StarForm(r: string)
    requires Wildcard(r)
    ensures r == r[..|r| - 2] + ['/'] + "*" && Prefix(r) == r[..|r| - 2] + ['/']
    ensures Prefix(r)[|Prefix(r)| - 1] == '/' && r == Prefix(r) + "*"
  {
    var p := r[..|r| - 2];
    assert r == p + r[|r| - 2..];
    assert "/*" == ['/'] + "*";
    assert r == p + ['/'] + "*";
  }

  lemma WildcardResource(r: string)
    requires Wildcard(r)
    ensures r == r[..|r| - 2] + ['/'] + "*" && Prefix(r) == r[..|r| - 2] + ['/']
    ensures Split(r, '/') == Split(r[..|r| - 2], '/') + ["*"]
  {
    hide Wildcard;
    hide Prefix;
    StarForm(r);
    SplitAtSeparator(r[..|r| - 2], "*", '/');
    SplitWithout("*", '/');
  }

  lemma LastCharOfWildcard(r: string)
    requires Wildcard(r)
    ensures r[|r| - 1] == '*'
  {
    assert r[|r| - 2..][1] == r[|r| - 1];
  }

  lemma StarIsWildcard(r: string)
    requires ValidResource(r, true) && exists s | s in Split(r, '/') :: '*' in s
    ensures Wildcard(r)
  {
    hide ValidResource;
    hide Wildcard;
    StarIsLast(r);
    ParentAndLast(r, '/');
    EndsInStar(r, Parent(r, '/'));
  }

  lemma StarIsLast(r: string)
    requires ValidResource(r, true) && exists s | s in Split(r, '/') :: '*' in s
    ensures var parts := Split(r, '/'); |parts| >= 3 && parts[|parts| - 1] == "*"
  {
  }

  lemma EndsInStar(r: string, p: string)
    requires r == p + ['/'] + "*"
    ensures Wildcard(r)
  {
    assert r[|r| - 2..] == ['/'] + "*" == "/*";
  }

  lemma WildcardHasStar(r: string)
    requires Wildcard(r)
    ensures "*" in Split(r, '/')
  {
    WildcardResource(r);
  }

  lemma StarIsNotPlain()
    ensures !PatternSegment("*")
  {
    assert "*"[0] == '*' && !SegmentChar('*');
  }

  /** A valid grant resource without a terminal wildcard is a concrete one. */
  lemma NotWildcardIsConcrete(r: string)
    requires ValidResource(r, true)
    ensures !Wildcard(r) ==> ValidResource(r, false)
    ensures Wildcard(r) ==> |Split(r, '/')| >= 3
  {
    if exists s | s in Split(r, '/') :: '*' in s {
      StarIsWildcard(r);
    }
    if Wildcard(r) {
      WildcardResource(r);
      assert "*" in Split(r, '/') && "*"[0] == '*';
    }
  }

  // ---- matching is segmentwise --------------------------------------------------------------

  /** The string test of a wildcard is the segment test: the request has every segment before the star, and at
      least one more. */
  lemma WildcardMatchesBySegments(scope: string, action: string, resource: string)
    requires ValidGrantScope(scope) && Wildcard(ResourceOf(scope)) && Requested(action, resource)
    ensures var parts := Split(ResourceOf(scope), '/');
      Matches(scope, action, resource) <==>
        action == ActionOf(scope) && parts[..|parts| - 1] < Split(resource, '/')
  {
    hide ValidGrantScope;
    hide ValidResource;
    ScopeParts(scope);
    var r := ResourceOf(scope);
    WildcardResource(r);
    PrefixIsSegmentwise(r[..|r| - 2], resource, '/');
    var parts := Split(r, '/');
    assert parts[..|parts| - 1] == Split(r[..|r| - 2], '/');
    if scope == AttemptedScope(action, resource) {
      PartsOfAttempted(action, resource);
      ConcreteIsNotWildcard(resource);
    }
  }

  lemma ConcreteIsNotWildcard(r: string)
    requires ValidResource(r, false)
    ensures !Wildcard(r)
  {
    ConcreteResources(r);
    StarIsNotPlain();
    if Wildcard(r) { WildcardHasStar(r); }
  }

  /** A scope without a wildcard matches its own request only. */
  lemma ConcreteMatchesItself(scope: string, action: string, resource: string)
    requires ValidGrantScope(scope) && !Wildcard(ResourceOf(scope))
    ensures Matches(scope, action, resource) <==> scope == AttemptedScope(action, resource)
  {
    hide ValidResource;
    hide ValidGrantScope;
    ScopeParts(scope);
  }

  // ---- subsumption and containment ----------------------------------------------------------

  /** Every concrete request that narrow matches is matched by broad. */
  ghost predicate Contains(broad: string, narrow: string) {
    forall action, resource | Requested(action, resource) && Matches(narrow, action, resource) ::
      Matches(broad, action, resource)
  }

  /** The segments before the star follow the segment pattern; what is not a wildcard is always clean. */
  predicate Clean(scope: string) {
    var segments := Split(ResourceOf(scope), '/');
    Wildcard(ResourceOf(scope)) ==> forall s | s in segments[..|segments| - 1] :: PatternSegment(s)
  }

  lemma SubsumesParts(broad: string, narrow: string)
    requires ValidGrantScope(broad) && ValidGrantScope(narrow)
    ensures Subsumes(broad, narrow) <==>
      || broad == narrow
      || (&& ActionOf(broad) == ActionOf(narrow) && Wildcard(ResourceOf(broad))
          && Prefix(ResourceOf(broad)) <= ResourceOf(narrow))
  {
    hide ValidGrantScope;
    hide ValidResource;
    ScopeParts(broad);
    ScopeParts(narrow);
  }

  lemma StarMakesWildcard(r: string)
    requires ValidResource(r, true)
    ensures var parts := Split(r, '/'); Wildcard(r) <==> parts[|parts| - 1] == "*"
  {
    hide ValidResource;
    hide Wildcard;
    var parts := Split(r, '/');
    if parts[|parts| - 1] == "*" {
      assert parts[|parts| - 1][0] == '*' && parts[|parts| - 1] in parts;
      StarIsWildcard(r);
    }
    if Wildcard(r) { WildcardResource(r); }
  }

  /** Subsumption on all strings, by segments: the scope itself, or, between valid scopes of one action, a wildcard
      whose segments before the star come first in the narrow scope and are not all of it. */
  lemma SubsumesBySegments(broad: string, narrow: string)
    ensures Subsumes(broad, narrow) <==>
      || broad == narrow
      || (&& ValidGrantScope(broad) && ValidGrantScope(narrow) && ActionOf(broad) == ActionOf(narrow)
          && var (b, n) := (Split(ResourceOf(broad), '/'), Split(ResourceOf(narrow), '/'));
          && b[|b| - 1] == "*" && b[..|b| - 1] < n)
  {
    hide ValidGrantScope;
    hide ValidResource;
    hide Wildcard;
    hide Prefix;
    hide Split;
    if ValidGrantScope(broad) && ValidGrantScope(narrow) {
      SubsumesParts(broad, narrow);
      ScopeParts(broad);
      var r := ResourceOf(broad);
      StarMakesWildcard(r);
      if Wildcard(r) {
        WildcardResource(r);
        PrefixIsSegmentwise(r[..|r| - 2], ResourceOf(narrow), '/');
      }
    }
  }

  lemma MatchesParts(scope: string, action: string, resource: string)
    requires ValidGrantScope(scope) && ValidAction(action)
    ensures Matches(scope, action, resource) <==>
      ActionOf(scope) == action &&
      (ResourceOf(scope) == resource || (Wildcard(ResourceOf(scope)) && Prefix(ResourceOf(scope)) <= resource))
  {
    hide ValidGrantScope;
    hide ValidResource;
    ScopeParts(scope);
    PartsOfAttempted(action, resource);
  }

  /** Whatever is subsumed is contained: no condition on either scope. */
  lemma SubsumptionIsSound(broad: string, narrow: string)
    requires Subsumes(broad, narrow)
    ensures Contains(broad, narrow)
  {
    hide ValidGrantScope;
    hide ValidResource;
    if broad != narrow {
      SubsumesParts(broad, narrow);
      forall action, resource | Requested(action, resource) && Matches(narrow, action, resource)
        ensures Matches(broad, action, resource)
      {
        MatchesParts(broad, action, resource);
        MatchesParts(narrow, action, resource);
        if Wildcard(ResourceOf(narrow)) { PrefixesNest(ResourceOf(broad), ResourceOf(narrow)); }
      }
    }
  }

  /** A prefix that ends at a separator does not reach into the star. */
  lemma PrefixesNest(broad: string, narrow: string)
    requires Wildcard(broad) && Wildcard(narrow) && Prefix(broad) <= narrow
    ensures Prefix(broad) <= Prefix(narrow)
  {
    StarForm(broad);
    StarForm(narrow);
    var p := Prefix(broad);
    assert p[|p| - 1] == narrow[|p| - 1];
  }

  /** A request below a clean wildcard. */
  lemma BelowWildcard(scope: string, leaf: string)
    requires ValidGrantScope(scope) && Wildcard(ResourceOf(scope)) && Clean(scope) && PlainSegment(leaf) && '/' !in leaf
    ensures var resource := Prefix(ResourceOf(scope)) + leaf;
      Requested(ActionOf(scope), resource) && Matches(scope, ActionOf(scope), resource)
  {
    ScopeParts(scope);
    var r := ResourceOf(scope);
    var resource := Prefix(r) + leaf;
    MatchesParts(scope, ActionOf(scope), resource);
    NotWildcardIsConcrete(r);
    WildcardSegmentsPlain(r);
    hide ValidResource;
    hide ValidGrantScope;
    WildcardResource(r);
    var p := r[..|r| - 2];
    assert resource == p + ['/'] + leaf;
    SplitAtSeparator(p, leaf, '/');
    SplitWithout(leaf, '/');
    ConcreteResources(resource);
  }

  lemma WildcardSegmentsPlain(r: string)
    requires ValidResource(r, true) && Wildcard(r)
    requires forall s | s in Split(r, '/')[..|Split(r, '/')| - 1] :: PatternSegment(s)
    ensures forall s | s in Split(r[..|r| - 2], '/') :: PlainSegment(s)
  {
    WildcardResource(r);
    var parts := Split(r, '/');
    assert parts[..|parts| - 1] == Split(r[..|r| - 2], '/');
    forall s | s in parts[..|parts| - 1] ensures PlainSegment(s) { assert s in parts; }
  }

  /** For a clean scope, whatever contains its requests subsumes it. */
  lemma CleanContainmentSubsumes(broad: string, narrow: string)
    requires ValidGrantScope(broad) && ValidGrantScope(narrow) && Clean(narrow) && Contains(broad, narrow)
    ensures Subsumes(broad, narrow)
  {
    hide ValidResource;
    hide ValidGrantScope;
    hide Subsumes;
    hide Matches;
    hide Clean;
    SubsumesParts(broad, narrow);
    ScopeParts(broad);
    ScopeParts(narrow);
    var action, rb, rn := ActionOf(narrow), ResourceOf(broad), ResourceOf(narrow);
    if Wildcard(rn) {
      BelowWildcard(narrow, "x");
      BelowWildcard(narrow, "y");
      MatchesParts(broad, action, Prefix(rn) + "x");
      MatchesParts(broad, action, Prefix(rn) + "y");
      LeavesDiffer(rn);
      if Wildcard(rb) { PrefixBelowLeaf(rb, rn); }
    } else {
      NotWildcardIsConcrete(rn);
      MatchesParts(narrow, action, rn);
      MatchesParts(broad, action, rn);
    }
  }

  lemma LeavesDiffer(r: string)
    requires Wildcard(r)
    ensures Prefix(r) + "x" != Prefix(r) + "y"
    ensures !Wildcard(Prefix(r) + "x") && !Wildcard(Prefix(r) + "y")
  {
    var a, b := Prefix(r) + "x", Prefix(r) + "y";
    assert a[|a| - 1] == 'x' && b[|b| - 1] == 'y';
    if Wildcard(a) { LastCharOfWildcard(a); }
    if Wildcard(b) { LastCharOfWildcard(b); }
  }

  lemma PrefixBelowLeaf(broad: string, narrow: string)
    requires Wildcard(broad) && Wildcard(narrow)
    ensures Prefix(broad) <= Prefix(narrow) + "x" ==> Prefix(broad) <= narrow
    ensures Prefix(broad) <= Prefix(narrow) + "y" ==> Prefix(broad) <= narrow
  {
    StarForm(broad);
    StarForm(narrow);
    var p := Prefix(broad);
    if p <= Prefix(narrow) + "x" { assert p[|p| - 1] == (Prefix(narrow) + "x")[|p| - 1]; }
    if p <= Prefix(narrow) + "y" { assert p[|p| - 1] == (Prefix(narrow) + "y")[|p| - 1]; }
  }

  /** A wildcard over a segment outside the pattern matches no valid request at all. */
  lemma UncleanMatchesNothing(scope: string, action: string, resource: string)
    requires ValidGrantScope(scope) && !Clean(scope) && Requested(action, resource)
    ensures !Matches(scope, action, resource)
  {
    hide ValidGrantScope;
    hide ValidResource;
    WildcardMatchesBySegments(scope, action, resource);
    ConcreteResources(resource);
    var parts := Split(ResourceOf(scope), '/');
    var s :| s in parts[..|parts| - 1] && !PatternSegment(s);
    if parts[..|parts| - 1] < Split(resource, '/') { assert s in Split(resource, '/'); }
  }

  const PLAIN_SCOPE := "read:a/b"

  lemma ConcreteIsGrantable(r: string)
    requires ValidResource(r, false)
    ensures ValidResource(r, true)
  {
  }

  lemma GrantScopeOf(action: string, resource: string)
    requires ValidAction(action) && ValidResource(resource, true)
    ensures ValidGrantScope(AttemptedScope(action, resource))
    ensures ActionOf(AttemptedScope(action, resource)) == action
    ensures ResourceOf(AttemptedScope(action, resource)) == resource
  {
    ActionsHaveNoColon(action);
    PartsOfAttempted(action, resource);
    assert AttemptedScope(action, resource) == action + [':'] + resource;
    assert ':' !in resource;
    hide ValidResource;
    SplitAtSeparator(action, resource, ':');
    SplitWithout(action, ':');
    SplitWithout(resource, ':');
  }

  lemma PlainResource()
    ensures ValidResource("a/b", false)
  {
    var a, b := "a", "b";
    assert a + ['/'] + b == "a/b";
    SplitAtSeparator(a, b, '/');
    SplitWithout(a, '/');
    SplitWithout(b, '/');
    assert PlainSegment(a) && PlainSegment(b);
    hide ValidResource;
    hide PlainSegment;
    ConcreteResources("a/b");
  }

  lemma PlainScopeIsValid()
    ensures ValidGrantScope(PLAIN_SCOPE) && ActionOf(PLAIN_SCOPE) == "read" && ResourceOf(PLAIN_SCOPE) == "a/b"
    ensures !Wildcard("a/b")
  {
    hide ValidResource;
    hide ValidGrantScope;
    hide Wildcard;
    PlainResource();
    ConcreteIsGrantable("a/b");
    ConcreteIsNotWildcard("a/b");
    assert PLAIN_SCOPE == AttemptedScope("read", "a/b");
    GrantScopeOf("read", "a/b");
  }

  /** Subsumption agrees with containment for every valid broad scope exactly when the narrow scope is clean. */
  lemma SubsumesIsContainmentExactlyForClean(narrow: string)
    requires ValidGrantScope(narrow)
    ensures (forall broad | ValidGrantScope(broad) :: Subsumes(broad, narrow) <==> Contains(broad, narrow)) <==>
      Clean(narrow)
  {
    hide ValidGrantScope;
    hide ValidResource;
    hide Subsumes;
    hide Contains;
    if Clean(narrow) {
      forall broad | ValidGrantScope(broad) ensures Subsumes(broad, narrow) <==> Contains(broad, narrow) {
        if Subsumes(broad, narrow) { SubsumptionIsSound(broad, narrow); }
        if Contains(broad, narrow) { CleanContainmentSubsumes(broad, narrow); }
      }
    } else {
      PlainScopeIsValid();
      UncleanIsEverywhereContained(narrow);
    }
  }

  lemma UncleanIsEverywhereContained(narrow: string)
    requires ValidGrantScope(narrow) && !Clean(narrow)
    ensures Contains(PLAIN_SCOPE, narrow) && !Subsumes(PLAIN_SCOPE, narrow)
  {
    hide ValidGrantScope;
    hide ValidResource;
    forall action, resource | Requested(action, resource) ensures !Matches(narrow, action, resource) {
      UncleanMatchesNothing(narrow, action, resource);
    }
    PlainScopeIsValid();
    SubsumesParts(PLAIN_SCOPE, narrow);
  }

  const SPACED_PARENT := "a b/c"
  const SPACED_SCOPE := "read:a b/c/*"

  lemma SpacedSegments()
    ensures Split(SPACED_PARENT + "/*", '/') == ["a b", "c", "*"]
    ensures Wildcard(SPACED_PARENT + "/*")
  {
    var a, c, r := "a b", "c", SPACED_PARENT + "/*";
    assert a + ['/'] + c == SPACED_PARENT;
    SplitAtSeparator(a, c, '/');
    SplitWithout(a, '/');
    SplitWithout(c, '/');
    assert SPACED_PARENT + ['/'] + "*" == r;
    EndsInStar(r, SPACED_PARENT);
    SplitAtSeparator(SPACED_PARENT, "*", '/');
    SplitWithout("*", '/');
  }

  lemma ThreeSegments(r: string, x: string, y: string)
    requires Split(r, '/') == [x, y, "*"] && '*' !in x && '*' !in y
    requires x != "" && y != "" && x != "." && x != ".." && y != "." && y != ".."
    requires r != "" && '\0' !in r && '\\' !in r && ':' !in r && r[0] != '/' && r[|r| - 1] != '/'
    ensures ValidResource(r, true)
  {
    hide Split;
    assert [x, y, "*"][..2] == [x, y];
    StarEnded([x, y, "*"]);
  }

  lemma StarEnded(segments: seq<string>)
    requires |segments| >= 3 && segments[|segments| - 1] == "*"
    requires forall i | 0 <= i < |segments| - 1 :: segments[i] != "" && segments[i] != "." && segments[i] != ".."
    ensures forall s | s in segments :: s != "" && s != "." && s != ".."
    ensures exists s | s in segments :: '*' in s
  {
    var last := segments[|segments| - 1];
    assert last in segments && last[0] == '*' && "."[0] == '.' && ".."[0] == '.';
    forall s | s in segments ensures s != "" && s != "." && s != ".." {
      var i :| 0 <= i < |segments| && segments[i] == s;
    }
  }

  lemma UncleanByFirst(scope: string, x: string, y: string)
    requires Wildcard(ResourceOf(scope)) && Split(ResourceOf(scope), '/') == [x, y, "*"] && !PatternSegment(x)
    ensures !Clean(scope)
  {
    hide PatternSegment;
    assert [x, y, "*"][..2][0] == x;
  }

  lemma SpacedScopeIsValid()
    ensures ValidGrantScope(SPACED_SCOPE) && !Clean(SPACED_SCOPE)
  {
    hide ValidResource;
    hide ValidGrantScope;
    hide Wildcard;
    hide Clean;
    SpacedSegments();
    var r := SPACED_PARENT + "/*";
    assert r == "a b/c/*";
    ThreeSegments(r, "a b", "c");
    assert SPACED_SCOPE == AttemptedScope("read", r);
    GrantScopeOf("read", r);
    SpaceIsOutside();
    UncleanByFirst(SPACED_SCOPE, "a b", "c");
  }

  lemma SpaceIsOutside()
    ensures !PatternSegment("a b")
  {
    assert "a b"[1] == ' ' && !SegmentChar(' ');
  }

  /** A concrete failure: the spaced scope is valid, matches nothing, is contained in a scope it has nothing to do
      with, and is not subsumed by it. */
  lemma ContainmentWithoutSubsumption()
    ensures ValidGrantScope(SPACED_SCOPE) && ValidGrantScope(PLAIN_SCOPE)
    ensures Contains(PLAIN_SCOPE, SPACED_SCOPE) && !Subsumes(PLAIN_SCOPE, SPACED_SCOPE)
  {
    hide ValidGrantScope;
    hide Contains;
    hide Subsumes;
    hide Clean;
    SpacedScopeIsValid();
    PlainScopeIsValid();
    UncleanIsEverywhereContained(SPACED_SCOPE);
  }

  // ---- a partial order ----------------------------------------------------------------------

  lemma SubsumesTransitive(a: string, b: string, c: string)
    requires Subsumes(a, b) && Subsumes(b, c)
    ensures Subsumes(a, c)
  {
    hide ValidGrantScope;
    hide ValidResource;
    if a != b && b != c {
      SubsumesParts(a, b);
      SubsumesParts(b, c);
      PrefixesNest(ResourceOf(a), ResourceOf(b));
      if a != c { SubsumesParts(a, c); }
    }
  }

  lemma SubsumesAntisymmetric(a: string, b: string)
    requires Subsumes(a, b) && Subsumes(b, a)
    ensures a == b
  {
    hide ValidGrantScope;
    hide ValidResource;
    if a != b {
      SubsumesParts(a, b);
      SubsumesParts(b, a);
      var ra, rb := ResourceOf(a), ResourceOf(b);
      PrefixesNest(ra, rb);
      PrefixesNest(rb, ra);
      WildcardResource(ra);
      WildcardResource(rb);
      assert ra == Prefix(ra) + "*" && rb == Prefix(rb) + "*";
      ScopeParts(a);
      ScopeParts(b);
    }
  }
}
