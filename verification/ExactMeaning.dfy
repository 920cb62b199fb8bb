/** The exact condition under which the generated rules mean what the policies are documented to
    mean, and rules that are lost to others with the same ID
    (plugins/policy/configurator/configurator_impl.go). */
module ExactMeaning {
  import opened Base
  import opened Net
  import opened Rules
  import opened Policies
  import opened RuleIDs
  import opened Configurator
  import opened ConfiguratorMeaning
  import opened BlockCoverage

  // ----- Networks that rules open for a port -----

  function PeerNetOf(dir: MatchType, r: Rule): Network {
    if dir == MatchIngress then r.src else r.dest
  }

  predicate OpensPort(r: Rule, port: Port) {
    r.proto == port.proto && MatchesPort(r.destPort, port.number)
  }

  /** The networks of all addresses. */
  function AllNets(): (nets: seq<Prefix>)
    ensures forall a: Bits :: Covers(nets, a) <==> IsAddress(a)
  {
    var nets: seq<Prefix> := [Subnet(Zeros(32), 0), Subnet(Zeros(128), 0)];
    assert forall a: Bits :: |a| == 32 ==> Contains(nets[0], a);
    assert forall a: Bits :: |a| == 128 ==> Contains(nets[1], a);
    nets
  }

  /** The networks of a rule, if the rule is about the port. */
  function NetsOf(dir: MatchType, port: Port): Rule -> seq<Prefix> {
    (r: Rule) =>
      var n := PeerNetOf(dir, r);
      if !OpensPort(r, port) then [] else if n.AnyNet? then AllNets() else if Canonical(n) then [n] else []
  }

  /** The networks that rules open for a port. */
  function NetsAt(dir: MatchType, rules: seq<Rule>, port: Port): seq<Prefix> {
    FlatMap(NetsOf(dir, port), rules)
  }

  /** Every network of one list lies in the other list, by subtraction. */
  predicate Inside(nets: seq<Prefix>, others: seq<Prefix>) {
    forall n :: n in nets ==> Expand(n, others) == []
  }

  predicate SameNets(nets: seq<Prefix>, others: seq<Prefix>) {
    Inside(nets, others) && Inside(others, nets)
  }

  /** For every port, the networks that the policies allow and those of the permit rules that are
      kept when the policies are read lie in each other. */
  ghost predicate PortsKept(text: NetText, cache: PodCache, dir: MatchType, policies: seq<ContivPolicy>) {
    forall port: Port :: SameNets(NetsAt(dir, Candidates(text, cache, dir, policies), port),
                                  NetsAt(dir, Kept(text, cache, dir, SeenPolicies(policies)), port))
  }

  function PortOf(p: Packet): Port { Port(p.proto, p.destPort) }

  lemma CandidateNet(text: NetText, cache: PodCache, dir: MatchType, policies: seq<ContivPolicy>, r: Rule, p: Packet)
    requires r in Candidates(text, cache, dir, policies) && IsAddress(PeerAddress(dir, p))
    ensures Matches(r, p) <==> Covers(NetsOf(dir, PortOf(p))(r), PeerAddress(dir, p))
  {
    hide Candidates, Peers, FlatMap, AllNets;
    var policy, m, pn, port := CandidateOf(text, cache, dir, policies, r);
    PeersHaveNets(cache, m, pn);
    var n := PeerNetOf(dir, r);
    assert n.AnyNet? || Canonical(n);
    assert Matches(r, p) <==> OpensPort(r, PortOf(p)) && MatchesNet(n, PeerAddress(dir, p));
    CoversNone(PeerAddress(dir, p));
    CoversOne(n, PeerAddress(dir, p));
  }

  /** Rules of policies match what their networks for the port cover. */
  lemma RulesCover(text: NetText, cache: PodCache, dir: MatchType, policies: seq<ContivPolicy>, rules: seq<Rule>, p: Packet)
    requires (forall r :: r in rules ==> r in Candidates(text, cache, dir, policies)) && IsAddress(PeerAddress(dir, p))
    ensures AnyMatches(rules, p) <==> Covers(NetsAt(dir, rules, PortOf(p)), PeerAddress(dir, p))
  {
    hide Candidates, Matches, PeerAddress, NetsOf, FlatMap, Contains;
    CoversFlatMap(NetsOf(dir, PortOf(p)), rules, PeerAddress(dir, p));
    forall r | r in rules ensures Matches(r, p) <==> Covers(NetsOf(dir, PortOf(p))(r), PeerAddress(dir, p)) {
      CandidateNet(text, cache, dir, policies, r, p);
    }
  }

  lemma SeenApplies(dir: MatchType, policies: seq<ContivPolicy>)
    ensures HasPolicy(dir, SeenPolicies(policies)) <==> HasPolicy(dir, policies)
    ensures AllAllowed(dir, SeenPolicies(policies)) ==> AllAllowed(dir, policies)
  {
    hide SeenBlocks, MatchesAnything;
    var seen := SeenPolicies(policies);
    if policy :| policy in seen && Applies(policy, dir) {
      var k :| 0 <= k < |seen| && seen[k] == policy;
      assert policies[k] in policies && Applies(policies[k], dir);
    }
    if policy :| policy in policies && Applies(policy, dir) {
      var k :| 0 <= k < |policies| && policies[k] == policy;
      assert seen[k] in seen && Applies(seen[k], dir);
    }
    if policy :| policy in seen && AllowsAll(dir, policy) {
      var k :| 0 <= k < |seen| && seen[k] == policy;
      var m :| m in policy.matches && MatchesAnything(dir, m);
      var j :| 0 <= j < |policy.matches| && policy.matches[j] == m;
      SeenAnything(dir, policies[k].matches[j]);
      assert policies[k].matches[j] in policies[k].matches && policies[k] in policies;
      assert AllowsAll(dir, policies[k]);
    }
  }

  lemma SeenAnything(dir: MatchType, m: Match)
    ensures MatchesAnything(dir, SeenMatch(m)) ==> MatchesAnything(dir, m)
  {
  }

  /** A packet is decided as documented exactly if a kept rule matches it exactly if the policies
      cover it. */
  lemma DecidedAsDocumented(text: NetText, cache: PodCache, dir: MatchType, policies: seq<ContivPolicy>, p: Packet)
    ensures Evaluate(Generated(text, cache, dir, policies), p) == Meaning(cache, dir, policies, p) <==>
            (AnyMatches(Kept(text, cache, dir, SeenPolicies(policies)), p) <==> SomePolicyCovers(cache, dir, policies, p))
  {
    hide Evaluate, Intended, Kept, SomePolicyCovers, SeenPolicies, Applies, AllAllowed, AnyMatches;
    IntendedDecides(text, cache, dir, SeenPolicies(policies), p);
    SeenApplies(dir, policies);
    if AllAllowed(dir, policies) { AllAllowedCovers(cache, dir, policies, p); }
  }

  lemma InsideIff(nets: seq<Prefix>, others: seq<Prefix>)
    ensures Inside(nets, others) <==> forall a: Bits :: Covers(nets, a) ==> Covers(others, a)
  {
    hide Expand, Contains;
    forall n: Prefix ensures Expand(n, others) == [] <==> forall a: Bits :: Contains(n, a) ==> Covers(others, a) {
      NothingLeftIff(n, others);
    }
    if Inside(nets, others) {
      forall a: Bits | Covers(nets, a) ensures Covers(others, a) {
        var i :| 0 <= i < |nets| && Contains(nets[i], a);
        assert nets[i] in nets;
      }
    }
    if forall a: Bits :: Covers(nets, a) ==> Covers(others, a) {
      forall n | n in nets ensures Expand(n, others) == [] {
        forall a: Bits | Contains(n, a) ensures Covers(others, a) {
          assert Covers(nets, a);
        }
      }
    }
  }

  lemma CoveredIsAddress(nets: seq<Prefix>, a: Bits)
    ensures Covers(nets, a) ==> IsAddress(a)
  {
  }

  lemma SameNetsIff(nets: seq<Prefix>, others: seq<Prefix>)
    ensures SameNets(nets, others) <==> forall a: Bits :: IsAddress(a) ==> (Covers(nets, a) <==> Covers(others, a))
  {
    hide Inside, Covers;
    InsideIff(nets, others);
    InsideIff(others, nets);
    forall a: Bits ensures (Covers(nets, a) || Covers(others, a)) ==> IsAddress(a) {
      CoveredIsAddress(nets, a);
      CoveredIsAddress(others, a);
    }
  }

  /** A packet to a port whose peer has a given address. */
  function PacketTo(dir: MatchType, port: Port, a: Bits): (p: Packet)
    ensures PeerAddress(dir, p) == a && PortOf(p) == port
  {
    Packet(a, a, port.proto, 0, port.number)
  }

  ghost predicate MeansDocumented(text: NetText, cache: PodCache, dir: MatchType, policies: seq<ContivPolicy>) {
    forall p: Packet :: IsAddress(PeerAddress(dir, p)) ==>
      Evaluate(Generated(text, cache, dir, policies), p) == Meaning(cache, dir, policies, p)
  }

  /** The generated list means the documentation, for every packet, if and only if the policies keep
      their networks for every port. */
  lemma PoliciesExactIff(text: NetText, cache: PodCache, dir: MatchType, policies: seq<ContivPolicy>)
    ensures MeansDocumented(text, cache, dir, policies) <==> PortsKept(text, cache, dir, policies)
  {
    hide Evaluate, Generated, Meaning, SameNets, NetsAt, Kept, Candidates, SeenPolicies, IsAddress;
    if PortsKept(text, cache, dir, policies) {
      forall p: Packet | IsAddress(PeerAddress(dir, p))
        ensures Evaluate(Generated(text, cache, dir, policies), p) == Meaning(cache, dir, policies, p)
      {
        var port := PortOf(p);
        SameNetsIff(NetsAt(dir, Candidates(text, cache, dir, policies), port),
                    NetsAt(dir, Kept(text, cache, dir, SeenPolicies(policies)), port));
        DecidedByNets(text, cache, dir, policies, p);
      }
    }
    if MeansDocumented(text, cache, dir, policies) {
      forall port: Port
        ensures SameNets(NetsAt(dir, Candidates(text, cache, dir, policies), port),
                         NetsAt(dir, Kept(text, cache, dir, SeenPolicies(policies)), port))
      {
        DocumentedKeeps(text, cache, dir, policies, port);
      }
    }
  }

  /** A packet is decided as documented exactly if the networks for its port agree on its peer. */
  lemma DecidedByNets(text: NetText, cache: PodCache, dir: MatchType, policies: seq<ContivPolicy>, p: Packet)
    requires IsAddress(PeerAddress(dir, p))
    ensures Evaluate(Generated(text, cache, dir, policies), p) == Meaning(cache, dir, policies, p) <==>
            (Covers(NetsAt(dir, Kept(text, cache, dir, SeenPolicies(policies)), PortOf(p)), PeerAddress(dir, p)) <==>
             Covers(NetsAt(dir, Candidates(text, cache, dir, policies), PortOf(p)), PeerAddress(dir, p)))
  {
    hide *;
    var seen := SeenPolicies(policies);
    DecidedAsDocumented(text, cache, dir, policies, p);
    CandidatesMeaning(text, cache, dir, policies, p);
    IntendedShape(text, cache, dir, seen);
    RulesCover(text, cache, dir, policies, Candidates(text, cache, dir, policies), p);
    RulesCover(text, cache, dir, seen, Kept(text, cache, dir, seen), p);
  }

  lemma DocumentedKeeps(text: NetText, cache: PodCache, dir: MatchType, policies: seq<ContivPolicy>, port: Port)
    requires MeansDocumented(text, cache, dir, policies)
    ensures SameNets(NetsAt(dir, Candidates(text, cache, dir, policies), port),
                     NetsAt(dir, Kept(text, cache, dir, SeenPolicies(policies)), port))
  {
    hide Evaluate, Generated, Meaning, SameNets, NetsAt, Kept, Candidates, SeenPolicies, IsAddress, PacketTo, Covers;
    var nets := NetsAt(dir, Candidates(text, cache, dir, policies), port);
    var others := NetsAt(dir, Kept(text, cache, dir, SeenPolicies(policies)), port);
    forall a: Bits | IsAddress(a) ensures Covers(nets, a) <==> Covers(others, a) {
      var p := PacketTo(dir, port, a);
      DecidedByNets(text, cache, dir, policies, p);
    }
    SameNetsIff(nets, others);
  }

  // ----- Rules lost to others with the same ID -----

  function PodPolicy(id: PolicyID, ptype: PolicyType, dir: MatchType, pod: PodID, port: Port): ContivPolicy {
    ContivPolicy(id, ptype, [Match(dir, Some([pod]), None, [port])])
  }

  lemma PodPolicyRules(text: NetText, cache: PodCache, id: PolicyID, ptype: PolicyType, dir: MatchType, pod: PodID, port: Port)
    requires Applies(PodPolicy(id, ptype, dir, pod, port), dir) && pod in cache && cache[pod].HasAddress?
    ensures PolicyRules(text, cache, dir)(SeenPolicy(PodPolicy(id, ptype, dir, pod, port))) ==
            [PermitRule(text, dir, id, PeerNet(PodPeer(pod), OneHost(cache[pod].ip)), port)]
  {
    hide PermitText, OneHost;
    var policy := PodPolicy(id, ptype, dir, pod, port);
    var m := policy.matches[0];
    var pn := PeerNet(PodPeer(pod), OneHost(cache[pod].ip));
    assert SeenPolicy(policy) == policy;
    FlatMapOne(MatchRules(text, cache, dir, id), m);
    FlatMapOne(PodPeers(cache), pod);
    FlatMapEmpty(BlockSubnets(), []);
    FlatMapEmpty(SubnetPeers(), []);
    assert Peers(cache, m) == [pn];
    FlatMapOne(PeerRules(text, dir, id, m.ports), pn);
    FlatMapOne(PortRule(text, dir, id, pn), port);
  }

  /** Two policies without blocks that each allow one pod: if the dash in their names is placed such
      that both rules get the same ID, the second pod is denied. */
  lemma CollidingRuleLost(text: NetText, cache: PodCache, ptype: PolicyType, dir: MatchType, namespace: string,
                          a: string, b: string, c: string, d: string, port: Port, p: Packet)
    requires var pod1, pod2 := PodID(b + "-" + c, d), PodID(c, d);
             && pod1 in cache && pod2 in cache && cache[pod1].HasAddress? && cache[pod2].HasAddress?
             && cache[pod1].ip != cache[pod2].ip == PeerAddress(dir, p)
    requires port.proto == p.proto && MatchesPort(port.number, p.destPort)
    requires Applies(ContivPolicy(PolicyID(namespace, a), ptype, []), dir)
    ensures var policies := [PodPolicy(PolicyID(namespace, a), ptype, dir, PodID(b + "-" + c, d), port),
                             PodPolicy(PolicyID(namespace, a + "-" + b), ptype, dir, PodID(c, d), port)];
            && PoliciesKept(policies)
            && Meaning(cache, dir, policies, p) == Allowed
            && Evaluate(Generated(text, cache, dir, policies), p) == Denied
  {
    var pod1, pod2 := PodID(b + "-" + c, d), PodID(c, d);
    var x := PodPolicy(PolicyID(namespace, a), ptype, dir, pod1, port);
    var y := PodPolicy(PolicyID(namespace, a + "-" + b), ptype, dir, pod2, port);
    PodPoliciesPlain(dir, x, y);
    PodCovered(cache, ptype, dir, y.id, pod2, port, p);
    OtherPodUnmatched(text, dir, x.id, PodPeer(pod1), cache[pod1].ip, port, p);
    hide *;
    CollidingKept(text, cache, ptype, dir, namespace, a, b, c, d, port);
    DeniedIfUnmatched(text, cache, dir, [x, y], x, y, p);
  }

  lemma PodPoliciesPlain(dir: MatchType, x: ContivPolicy, y: ContivPolicy)
    requires forall m :: m in x.matches || m in y.matches ==> m.pods.Some? && m.blocks.None?
    ensures !AllAllowed(dir, [x, y]) && PoliciesKept([x, y])
  {
    hide CoverageKept;
  }

  lemma OtherPodUnmatched(text: NetText, dir: MatchType, id: PolicyID, peer: Peer, ip: Address, port: Port, p: Packet)
    requires PeerAddress(dir, p) != ip
    ensures !AnyMatches([PermitRule(text, dir, id, PeerNet(peer, OneHost(ip)), port)], p)
  {
    hide PermitText;
    assert !Contains(OneHost(ip), PeerAddress(dir, p));
    hide Contains, OneHost;
  }

  lemma PodCovered(cache: PodCache, ptype: PolicyType, dir: MatchType, id: PolicyID, pod: PodID, port: Port, p: Packet)
    requires pod in cache && cache[pod].HasAddress? && cache[pod].ip == PeerAddress(dir, p)
    requires port.proto == p.proto && MatchesPort(port.number, p.destPort) && Applies(ContivPolicy(id, ptype, []), dir)
    ensures PolicyCovers(cache, dir, PodPolicy(id, ptype, dir, pod, port), p)
  {
    var m := Match(dir, Some([pod]), None, [port]);
    assert pod in [pod] && IsPodAddress(cache, pod, PeerAddress(dir, p));
    assert port in [port];
    assert MatchCovers(cache, dir, m, p) && m in PodPolicy(id, ptype, dir, pod, port).matches;
  }

  lemma CollidingKept(text: NetText, cache: PodCache, ptype: PolicyType, dir: MatchType, namespace: string,
                      a: string, b: string, c: string, d: string, port: Port)
    requires var pod1, pod2 := PodID(b + "-" + c, d), PodID(c, d);
             pod1 in cache && pod2 in cache && cache[pod1].HasAddress? && cache[pod2].HasAddress?
    requires Applies(ContivPolicy(PolicyID(namespace, a), ptype, []), dir)
    ensures var pod1 := PodID(b + "-" + c, d);
            var policies := [PodPolicy(PolicyID(namespace, a), ptype, dir, pod1, port),
                             PodPolicy(PolicyID(namespace, a + "-" + b), ptype, dir, PodID(c, d), port)];
            Kept(text, cache, dir, SeenPolicies(policies)) ==
            [PermitRule(text, dir, PolicyID(namespace, a), PeerNet(PodPeer(pod1), OneHost(cache[pod1].ip)), port)]
  {
    hide PermitText, OneHost, SeenPolicy, PolicyRules, Append;
    var pod1, pod2 := PodID(b + "-" + c, d), PodID(c, d);
    var x := PodPolicy(PolicyID(namespace, a), ptype, dir, pod1, port);
    var y := PodPolicy(PolicyID(namespace, a + "-" + b), ptype, dir, pod2, port);
    var f := PolicyRules(text, cache, dir);
    assert SeenPolicies([x, y]) == [SeenPolicy(x)] + [SeenPolicy(y)];
    FlatMapConcat(f, [SeenPolicy(x)], [SeenPolicy(y)]);
    FlatMapOne(f, SeenPolicy(x));
    FlatMapOne(f, SeenPolicy(y));
    PodPolicyRules(text, cache, x.id, ptype, dir, pod1, port);
    PodPolicyRules(text, cache, y.id, ptype, dir, pod2, port);
    var r1 := PermitRule(text, dir, x.id, PeerNet(PodPeer(pod1), OneHost(cache[pod1].ip)), port);
    var r2 := PermitRule(text, dir, y.id, PeerNet(PodPeer(pod2), OneHost(cache[pod2].ip)), port);
    IDsCollide(text, namespace, a, b, c, d, port);
    AppendConcat([], [r1], [r2]);
    AppendSingle([], r1);
    AppendSingle([r1], r2);
    assert [r1][0].id == r2.id;
  }

  lemma DeniedIfUnmatched(text: NetText, cache: PodCache, dir: MatchType, policies: seq<ContivPolicy>,
                          x: ContivPolicy, y: ContivPolicy, p: Packet)
    requires policies == [x, y] && PolicyCovers(cache, dir, y, p)
    requires !AllAllowed(dir, policies) && !AnyMatches(Kept(text, cache, dir, SeenPolicies(policies)), p)
    ensures Meaning(cache, dir, policies, p) == Allowed && Evaluate(Generated(text, cache, dir, policies), p) == Denied
  {
    hide Evaluate, Intended, Kept, PolicyCovers, SeenPolicies, AllAllowed, AnyMatches, Applies;
    assert y in policies;
    CoverApplies(cache, dir, y, p);
    IntendedDecides(text, cache, dir, SeenPolicies(policies), p);
    SeenApplies(dir, policies);
  }
}
