/** Which policies and which end of a packet count in which direction, said by the fields of the
    policies alone (plugins/policy/configurator/configurator_impl.go). */
module DirectionMeaning {
  import opened Base
  import opened Net
  import opened Rules
  import opened Policies
  import opened RuleIDs
  import opened Configurator
  import opened ConfiguratorMeaning

  // ----- Policies of the other direction -----

  /** The policies of other types, in their order. */
  function Without(t: PolicyType, policies: seq<ContivPolicy>): seq<ContivPolicy> {
    if policies == [] then []
    else
      var init, last := Without(t, policies[..|policies| - 1]), policies[|policies| - 1];
      if last.ptype == t then init else init + [last]
  }

  lemma {:induction false} WithoutMembers(t: PolicyType, policies: seq<ContivPolicy>)
    ensures forall x :: x in Without(t, policies) <==> x in policies && x.ptype != t
  {
    if policies != [] {
      var init, last := policies[..|policies| - 1], policies[|policies| - 1];
      WithoutMembers(t, init);
      assert policies == init + [last];
    }
  }

  lemma {:induction false} SeenWithout(t: PolicyType, policies: seq<ContivPolicy>)
    ensures SeenPolicies(Without(t, policies)) == Without(t, SeenPolicies(policies))
  {
    hide SeenMatch;
    if policies != [] {
      var init, last := policies[..|policies| - 1], policies[|policies| - 1];
      SeenWithout(t, init);
      var seen := SeenPolicies(policies);
      assert seen[..|seen| - 1] == SeenPolicies(init) && seen[|seen| - 1] == SeenPolicy(last);
      var rest := Without(t, init);
      assert SeenPolicies(rest + [last]) == SeenPolicies(rest) + [SeenPolicy(last)];
    }
  }

  lemma {:induction false} FlatMapWithout(f: ContivPolicy -> seq<Rule>, t: PolicyType, policies: seq<ContivPolicy>)
    requires forall policy: ContivPolicy :: policy.ptype == t ==> f(policy) == []
    ensures FlatMap(f, Without(t, policies)) == FlatMap(f, policies)
  {
    if policies != [] {
      var init, last := policies[..|policies| - 1], policies[|policies| - 1];
      FlatMapWithout(f, t, init);
      var rest := Without(t, init);
      assert (rest + [last])[..|rest|] == rest;
    }
  }

  /** Policies of a type that does not apply change nothing. */
  lemma IntendedWithout(text: NetText, cache: PodCache, dir: MatchType, t: PolicyType, policies: seq<ContivPolicy>)
    requires forall policy: ContivPolicy :: policy.ptype == t ==> !Applies(policy, dir)
    ensures Intended(text, cache, dir, Without(t, policies)) == Intended(text, cache, dir, policies)
  {
    hide Append, FlatMap, Applies, SomeMatchesAnything, MatchRules;
    WithoutMembers(t, policies);
    FlatMapWithout(PolicyRules(text, cache, dir), t, policies);
    assert HasPolicy(dir, Without(t, policies)) <==> HasPolicy(dir, policies);
    assert AllAllowed(dir, Without(t, policies)) <==> AllAllowed(dir, policies);
  }

  lemma OneWayTypes(policy: ContivPolicy)
    ensures Applies(policy, MatchIngress) <==> policy.ptype != PolicyEgress
    ensures Applies(policy, MatchEgress) <==> policy.ptype != PolicyIngress
  {
  }

  /** The list of a direction is the one generated without the policies that are only for the
      other direction. */
  lemma OtherDirectionIgnored(text: NetText, cache: PodCache, policies: seq<ContivPolicy>)
    ensures Generated(text, cache, MatchIngress, policies) == Generated(text, cache, MatchIngress, Without(PolicyEgress, policies))
    ensures Generated(text, cache, MatchEgress, policies) == Generated(text, cache, MatchEgress, Without(PolicyIngress, policies))
  {
    hide Intended, Without, SeenPolicies, Applies;
    forall policy: ContivPolicy { OneWayTypes(policy); }
    SeenWithout(PolicyEgress, policies);
    SeenWithout(PolicyIngress, policies);
    IntendedWithout(text, cache, MatchIngress, PolicyEgress, SeenPolicies(policies));
    IntendedWithout(text, cache, MatchEgress, PolicyIngress, SeenPolicies(policies));
  }

  // ----- The documented verdict, field by field -----

  /** The peers of a match include the address. */
  predicate ListsPeer(cache: PodCache, m: Match, a: Bits) {
    match (m.pods, m.blocks)
    case (None, None) => true
    case (pods, blocks) =>
      || (exists pod :: pod in OrEmpty(pods) && pod in cache && cache[pod].HasAddress? && cache[pod].ip == a)
      || (exists block :: block in OrEmpty(blocks) && Contains(block.network, a) &&
                          forall e :: e in block.except ==> !Contains(e, a))
  }

  /** The ports of a match include the destination port; without ports, every port of both
      protocols is included. */
  predicate ListsPort(m: Match, p: Packet) {
    m.ports == [] ||
    exists port :: port in m.ports && port.proto == p.proto && (port.number == 0 || port.number == p.destPort)
  }

  /** A policy that is not only for egress lists the source in an ingress match. */
  predicate IngressListed(cache: PodCache, policies: seq<ContivPolicy>, p: Packet) {
    exists policy, m :: policy in policies && m in policy.matches &&
      policy.ptype != PolicyEgress && m.mtype == MatchIngress && ListsPeer(cache, m, p.src) && ListsPort(m, p)
  }

  /** A policy that is not only for ingress lists the destination in an egress match. */
  predicate EgressListed(cache: PodCache, policies: seq<ContivPolicy>, p: Packet) {
    exists policy, m :: policy in policies && m in policy.matches &&
      policy.ptype != PolicyIngress && m.mtype == MatchEgress && ListsPeer(cache, m, p.dest) && ListsPort(m, p)
  }

  predicate SomeNotOf(t: PolicyType, policies: seq<ContivPolicy>) {
    exists policy :: policy in policies && policy.ptype != t
  }

  lemma ListsCovers(cache: PodCache, m: Match, p: Packet, a: Bits)
    ensures ListsPeer(cache, m, a) <==> CoversPeer(cache, m, a)
    ensures ListsPort(m, p) <==> CoversPort(m, p)
  {
    hide Contains;
    forall block: IPBlock ensures BlockCovers(block, a) <==>
                                  Contains(block.network, a) && forall e :: e in block.except ==> !Contains(e, a) {
      if e :| e in block.except && Contains(e, a) {
        var i :| 0 <= i < |block.except| && block.except[i] == e;
      }
    }
    if pod :| pod in OrEmpty(m.pods) && pod in cache && cache[pod].HasAddress? && cache[pod].ip == a {
      assert IsPodAddress(cache, pod, a);
    }
    if SomePodHas(cache, OrEmpty(m.pods), a) {
      var pod :| pod in OrEmpty(m.pods) && IsPodAddress(cache, pod, a);
    }
  }

  lemma IngressCovered(cache: PodCache, policies: seq<ContivPolicy>, p: Packet)
    ensures SomePolicyCovers(cache, MatchIngress, policies, p) <==> IngressListed(cache, policies, p)
  {
    hide CoversPeer, CoversPort, ListsPeer, ListsPort, Applies;
    forall policy: ContivPolicy { OneWayTypes(policy); }
    forall m: Match { ListsCovers(cache, m, p, p.src); }
    if IngressListed(cache, policies, p) {
      var policy, m :| policy in policies && m in policy.matches && policy.ptype != PolicyEgress && m.mtype == MatchIngress &&
                       ListsPeer(cache, m, p.src) && ListsPort(m, p);
      assert MatchCovers(cache, MatchIngress, m, p);
      assert PolicyCovers(cache, MatchIngress, policy, p);
    }
  }

  lemma EgressCovered(cache: PodCache, policies: seq<ContivPolicy>, p: Packet)
    ensures SomePolicyCovers(cache, MatchEgress, policies, p) <==> EgressListed(cache, policies, p)
  {
    hide CoversPeer, CoversPort, ListsPeer, ListsPort, Applies;
    forall policy: ContivPolicy { OneWayTypes(policy); }
    forall m: Match { ListsCovers(cache, m, p, p.dest); }
    if EgressListed(cache, policies, p) {
      var policy, m :| policy in policies && m in policy.matches && policy.ptype != PolicyIngress && m.mtype == MatchEgress &&
                       ListsPeer(cache, m, p.dest) && ListsPort(m, p);
      assert MatchCovers(cache, MatchEgress, m, p);
      assert PolicyCovers(cache, MatchEgress, policy, p);
    }
  }

  /** The documented verdict of ingress is about the source, that of egress about the destination;
      without a policy that may apply nothing is decided. */
  lemma MeaningByFields(cache: PodCache, policies: seq<ContivPolicy>, p: Packet)
    ensures Meaning(cache, MatchIngress, policies, p) ==
            if IngressListed(cache, policies, p) then Allowed else if SomeNotOf(PolicyEgress, policies) then Denied else Unmatched
    ensures Meaning(cache, MatchEgress, policies, p) ==
            if EgressListed(cache, policies, p) then Allowed else if SomeNotOf(PolicyIngress, policies) then Denied else Unmatched
  {
    hide SomePolicyCovers, IngressListed, EgressListed, Applies;
    forall policy: ContivPolicy { OneWayTypes(policy); }
    IngressCovered(cache, policies, p);
    EgressCovered(cache, policies, p);
  }

  /** First match on the generated list decides by the fields of the policies, if IDs tell its rules
      apart; in any case it allows nothing else. */
  lemma GeneratedByFields(text: NetText, cache: PodCache, policies: seq<ContivPolicy>, p: Packet)
    ensures var seen, verdict := SeenPolicies(policies), Evaluate(Generated(text, cache, MatchIngress, policies), p);
            && (verdict == Allowed ==> IngressListed(cache, seen, p))
            && (Told(text, cache, MatchIngress, policies) ==> (verdict == Allowed <==> IngressListed(cache, seen, p)))
            && (!IngressListed(cache, seen, p) ==> verdict == if SomeNotOf(PolicyEgress, policies) then Denied else Unmatched)
    ensures var seen, verdict := SeenPolicies(policies), Evaluate(Generated(text, cache, MatchEgress, policies), p);
            && (verdict == Allowed ==> EgressListed(cache, seen, p))
            && (Told(text, cache, MatchEgress, policies) ==> (verdict == Allowed <==> EgressListed(cache, seen, p)))
            && (!EgressListed(cache, seen, p) ==> verdict == if SomeNotOf(PolicyIngress, policies) then Denied else Unmatched)
  {
    hide Intended, SeenPolicies, Meaning, Evaluate, Told, IngressListed, EgressListed, SomeNotOf;
    var seen := SeenPolicies(policies);
    MeaningByFields(cache, seen, p);
    SeenTypes(policies, PolicyIngress);
    SeenTypes(policies, PolicyEgress);
    forall dir: MatchType
      ensures Evaluate(Generated(text, cache, dir, policies), p) == Allowed ==> Meaning(cache, dir, seen, p) == Allowed
      ensures Meaning(cache, dir, seen, p) != Allowed ==>
                Evaluate(Generated(text, cache, dir, policies), p) == Meaning(cache, dir, seen, p)
      ensures Told(text, cache, dir, policies) ==> Evaluate(Generated(text, cache, dir, policies), p) == Meaning(cache, dir, seen, p)
    {
      GeneratedBounds(text, cache, dir, policies, p);
    }
  }

  lemma SeenTypes(policies: seq<ContivPolicy>, t: PolicyType)
    ensures SomeNotOf(t, SeenPolicies(policies)) <==> SomeNotOf(t, policies)
  {
    hide SeenMatch;
    var seen := SeenPolicies(policies);
    if policy :| policy in policies && policy.ptype != t {
      var k :| 0 <= k < |policies| && policies[k] == policy;
      assert seen[k] in seen && seen[k].ptype == policy.ptype;
    }
    if policy :| policy in seen && policy.ptype != t {
      var k :| 0 <= k < |seen| && seen[k] == policy;
      assert policies[k] in policies && policies[k].ptype == policy.ptype;
    }
  }

  lemma GeneratedBounds(text: NetText, cache: PodCache, dir: MatchType, policies: seq<ContivPolicy>, p: Packet)
    ensures var seen, verdict := SeenPolicies(policies), Evaluate(Generated(text, cache, dir, policies), p);
            && (verdict == Allowed ==> Meaning(cache, dir, seen, p) == Allowed)
            && (Meaning(cache, dir, seen, p) != Allowed ==> verdict == Meaning(cache, dir, seen, p))
            && (Told(text, cache, dir, policies) ==> verdict == Meaning(cache, dir, seen, p))
  {
    hide Intended, SeenPolicies, Evaluate, IDsDistinct, Candidates, SomePolicyCovers, Kept, AllAllowed;
    var seen := SeenPolicies(policies);
    IntendedNeverMore(text, cache, dir, seen, p);
    IntendedDecides(text, cache, dir, seen, p);
    if Told(text, cache, dir, policies) { GeneratedMeaning(text, cache, dir, policies, p); }
  }

  // ----- Deny the rest -----

  /** Some match of the direction has neither peers nor ports. */
  predicate HasMatchAll(dir: MatchType, matches: seq<Match>) {
    exists m :: m in matches && m.mtype == dir && m.pods.None? && m.blocks.None? && m.ports == []
  }

  predicate SomeMatchesAll(t: PolicyType, dir: MatchType, policies: seq<ContivPolicy>) {
    exists policy :: policy in policies && policy.ptype != t && HasMatchAll(dir, policy.matches)
  }

  lemma AllAllowedByFields(dir: MatchType, t: PolicyType, policies: seq<ContivPolicy>)
    requires forall policy: ContivPolicy :: Applies(policy, dir) <==> policy.ptype != t
    ensures AllAllowed(dir, policies) <==> SomeMatchesAll(t, dir, policies)
    ensures HasPolicy(dir, policies) <==> SomeNotOf(t, policies)
  {
    hide Applies;
    forall policy: ContivPolicy ensures HasMatchAll(dir, policy.matches) <==> SomeMatchesAnything(dir, policy.matches) {
      if m :| m in policy.matches && m.mtype == dir && m.pods.None? && m.blocks.None? && m.ports == [] {
        assert MatchesAnything(dir, m);
      }
    }
    if SomeMatchesAll(t, dir, policies) {
      var policy :| policy in policies && policy.ptype != t && HasMatchAll(dir, policy.matches);
      assert AllowsAll(dir, policy);
    }
  }

  ghost predicate HasDenyRule(rules: seq<Rule>) {
    exists r :: r in rules && r.action == ActionDeny
  }

  lemma DenyRuleIff(text: NetText, cache: PodCache, dir: MatchType, policies: seq<ContivPolicy>)
    ensures HasDenyRule(Intended(text, cache, dir, policies)) <==> HasPolicy(dir, policies) && !AllAllowed(dir, policies)
  {
    hide Kept, Intended, Candidates, AllAllowed, HasPolicy;
    IntendedShape(text, cache, dir, policies);
    var denies := DenyTheRest(dir, policies);
    if HasPolicy(dir, policies) && !AllAllowed(dir, policies) {
      assert denies[0] in denies && denies[0].action == ActionDeny;
    }
  }

  lemma SeenHasMatchAll(dir: MatchType, policy: ContivPolicy)
    ensures HasMatchAll(dir, SeenPolicy(policy).matches) <==> HasMatchAll(dir, policy.matches)
  {
    hide SeenBlocks;
    var seen := SeenPolicy(policy).matches;
    forall k | 0 <= k < |seen| ensures seen[k] in seen && policy.matches[k] in policy.matches && seen[k] == SeenMatch(policy.matches[k]) {
    }
  }

  lemma SeenMatchesAll(t: PolicyType, dir: MatchType, policies: seq<ContivPolicy>)
    ensures SomeMatchesAll(t, dir, SeenPolicies(policies)) <==> SomeMatchesAll(t, dir, policies)
  {
    hide HasMatchAll, SeenMatch;
    var seen := SeenPolicies(policies);
    forall k | 0 <= k < |seen|
      ensures seen[k] in seen && policies[k] in policies && seen[k].ptype == policies[k].ptype
      ensures HasMatchAll(dir, seen[k].matches) <==> HasMatchAll(dir, policies[k].matches)
    {
      SeenHasMatchAll(dir, policies[k]);
    }
  }

  /** The list ends by denying the rest exactly if some policy may apply and none of them matches
      everything. */
  lemma DenyTheRestIff(text: NetText, cache: PodCache, policies: seq<ContivPolicy>)
    ensures HasDenyRule(Generated(text, cache, MatchIngress, policies)) <==>
            SomeNotOf(PolicyEgress, policies) && !SomeMatchesAll(PolicyEgress, MatchIngress, policies)
    ensures HasDenyRule(Generated(text, cache, MatchEgress, policies)) <==>
            SomeNotOf(PolicyIngress, policies) && !SomeMatchesAll(PolicyIngress, MatchEgress, policies)
  {
    hide Intended, SeenPolicies, HasDenyRule, SomeNotOf, SomeMatchesAll, Applies, HasPolicy, AllAllowed;
    forall policy: ContivPolicy { OneWayTypes(policy); }
    var seen := SeenPolicies(policies);
    DenyRuleIff(text, cache, MatchIngress, seen);
    DenyRuleIff(text, cache, MatchEgress, seen);
    AllAllowedByFields(MatchIngress, PolicyEgress, seen);
    AllAllowedByFields(MatchEgress, PolicyIngress, seen);
    SeenTypes(policies, PolicyEgress);
    SeenTypes(policies, PolicyIngress);
    SeenMatchesAll(PolicyEgress, MatchIngress, policies);
    SeenMatchesAll(PolicyIngress, MatchEgress, policies);
  }

  /** A policy without matches isolates the pod in every direction of its type and in no other. */
  lemma NoMatchesIsolates(text: NetText, cache: PodCache, id: PolicyID, t: PolicyType, p: Packet)
    ensures Evaluate(Generated(text, cache, MatchIngress, [ContivPolicy(id, t, [])]), p) ==
            if t == PolicyIngress || t == PolicyAll then Denied else Unmatched
    ensures Evaluate(Generated(text, cache, MatchEgress, [ContivPolicy(id, t, [])]), p) ==
            if t == PolicyEgress || t == PolicyAll then Denied else Unmatched
  {
    hide Generated, Evaluate, Told;
    var policies := [ContivPolicy(id, t, [])];
    GeneratedByFields(text, cache, policies, p);
    assert policies[0] in policies;
    assert SeenPolicies(policies)[0].matches == [];
  }
}
