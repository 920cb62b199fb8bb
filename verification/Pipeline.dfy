/** From policies to session tables: what the tables of a host decide about a connection is what
    the policies of the pods mean (plugins/policy/configurator/configurator_impl.go,
    plugins/policy/renderer/vpptcp/cache/cache_impl.go). */
module Pipeline {
  import opened Base
  import opened Net
  import opened Rules
  import opened Policies
  import opened RuleIDs
  import Configurator
  import ConfiguratorMeaning
  import BlockCoverage
  import opened CombinedIDs
  import ConfiguratorTxn
  import opened CombinedRules
  import opened CombinedDecisions
  import opened SessionRules
  import opened Conversion
  import opened TableSpec
  import opened TableLookup
  import opened TableDecisions
  import SessionCache

  /** The rule list of one direction of a pod. */
  function ListOf(text: NetText, cache: PodCache, dir: MatchType, policies: seq<ContivPolicy>): seq<Rule> {
    Configurator.Generated(text, cache, dir, ConfiguratorTxn.SortPolicies(policies))
  }

  /** The verdict of the policies of a pod, which is the documented one if their blocks keep their coverage. */
  function PolicyVerdict(cache: PodCache, dir: MatchType, policies: seq<ContivPolicy>, p: Packet): Rules.Verdict {
    Meaning(cache, dir, Configurator.SeenPolicies(policies), p)
  }

  lemma DocumentedVerdict(cache: PodCache, dir: MatchType, policies: seq<ContivPolicy>, p: Packet)
    requires BlockCoverage.PoliciesKept(policies)
    ensures PolicyVerdict(cache, dir, policies, p) == Meaning(cache, dir, policies, p)
  {
    hide Configurator.SeenPolicies, Meaning, BlockCoverage.PoliciesKept;
    BlockCoverage.KeptSeen(cache, dir, policies, p);
  }

  /** The list of a pod permits nothing that its policies deny, and everything else if IDs tell its
      rules apart. */
  lemma ListMeaning(text: NetText, cache: PodCache, dir: MatchType, policies: seq<ContivPolicy>, p: Packet)
    ensures Permits(ListOf(text, cache, dir, policies), p) ==> PolicyVerdict(cache, dir, policies, p) != Denied
    ensures ConfiguratorMeaning.Told(text, cache, dir, policies) ==>
              (Permits(ListOf(text, cache, dir, policies), p) <==> PolicyVerdict(cache, dir, policies, p) != Denied)
  {
    hide Configurator.Generated, ConfiguratorTxn.SortPolicies, Meaning, Evaluate, BlockCoverage.PoliciesKept, ConfiguratorMeaning.Told;
    ConfiguratorTxn.SortingKeepsMeaning(text, cache, dir, policies, p);
  }

  // ----- Shape of generated lists -----

  /** Every permit rule stems from a match; its other side is unset. */
  lemma IntendedRules(text: NetText, cache: PodCache, dir: MatchType, policies: seq<ContivPolicy>)
    ensures var rules := Configurator.Intended(text, cache, dir, policies);
            HasShape(rules) && OneSided(dir == MatchIngress, rules)
  {
    hide Configurator.Intended, Configurator.Candidates, Configurator.Kept, PermitText;
    ConfiguratorMeaning.IntendedShape(text, cache, dir, policies);
    var permits := Configurator.Kept(text, cache, dir, policies);
    var denies := Configurator.DenyTheRest(dir, policies);
    var rules := Configurator.Intended(text, cache, dir, policies);
    var n := |permits|;
    assert rules[..n] == permits && rules[n..] == denies;
    assert SplitAt(rules, n);
    forall k | 0 <= k < |rules|
      ensures (if dir == MatchIngress then rules[k].dest.AnyNet? else rules[k].src.AnyNet?) && rules[k].srcPort == 0
    {
      if k < n {
        assert permits[k] in permits;
        var policy, m, pn, port := ConfiguratorMeaning.CandidateOf(text, cache, dir, policies, permits[k]);
      }
    }
  }

  /** The rules of a generated list have different IDs. */
  lemma ListIDsDistinct(text: NetText, cache: PodCache, dir: MatchType, policies: seq<ContivPolicy>)
    ensures IDsDistinct(ListOf(text, cache, dir, policies))
  {
    hide Configurator.Intended, Configurator.SeenPolicies, ConfiguratorTxn.SortPolicies, NoneText;
    var seen := Configurator.SeenPolicies(ConfiguratorTxn.SortPolicies(policies));
    var permits, denies := Configurator.Kept(text, cache, dir, seen), Configurator.DenyTheRest(dir, seen);
    ConfiguratorMeaning.IntendedShape(text, cache, dir, seen);
    hide Configurator.Kept, Configurator.Candidates;
    NonesDiffer();
    forall x | x in permits ensures forall proto :: x.id != NoneText(proto) {
      ConfiguratorMeaning.CandidatesPermit(text, cache, dir, seen, x);
    }
    assert forall d :: d in denies ==> d.id == NoneText(d.proto) && d == Configurator.DenyAll(d.proto);
  }

  // ----- When installed rules stay effective -----

  /** The rule of a peer and a port that still counts against the deny-the-rest rules once
      installed. */
  predicate Strong(pn: Configurator.PeerNet, port: Port) {
    if pn.net.AnyNet? then port.number != 0 else pn.net.plen >= 1
  }

  predicate LongBlockCovers(blocks: seq<IPBlock>, a: Bits) {
    exists block :: block in blocks && BlockCovers(block, a) && !(Configurator.Whole(block) && block.network.plen == 0)
  }

  predicate NamedPort(ports: seq<Port>, p: Packet) {
    exists port :: port in ports && port.proto == p.proto && port.number == p.destPort && port.number != 0
  }

  /** The match covers the packet by more than an explicit port 0 of any peer and more than a
      whole block of all addresses. */
  predicate Survives(cache: PodCache, dir: MatchType, m: Match, p: Packet) {
    && m.mtype == dir
    && CoversPort(m, p)
    && (|| (m.pods.None? && m.blocks.None? && NamedPort(m.ports, p))
        || (m.pods.Some? && SomePodHas(cache, m.pods.value, PeerAddress(dir, p)))
        || (m.blocks.Some? && LongBlockCovers(m.blocks.value, PeerAddress(dir, p))))
  }

  predicate SomeSurvives(cache: PodCache, dir: MatchType, policies: seq<ContivPolicy>, p: Packet) {
    exists policy, m :: policy in policies && Applies(policy, dir) && m in policy.matches && Survives(cache, dir, m, p)
  }

  /** The policies allow the packet, but no match that does so survives being installed. */
  predicate Starving(cache: PodCache, dir: MatchType, policies: seq<ContivPolicy>, p: Packet) {
    && !Configurator.AllAllowed(dir, policies)
    && SomePolicyCovers(cache, dir, policies, p)
    && !SomeSurvives(cache, dir, policies, p)
  }

  function QueryOf(dir: MatchType, p: Packet): Query {
    Query(PeerAddress(dir, p), p.proto, p.destPort)
  }

  lemma SubnetPeerIn(cache: PodCache, m: Match, block: IPBlock, subnet: Prefix)
    requires m.blocks.Some? && block in m.blocks.value && subnet in Expand(block.network, block.except)
    ensures Configurator.PeerNet(SubnetPeer(subnet), subnet) in Configurator.Peers(cache, m)
  {
    hide Expand, FlatMap;
    var pn := Configurator.PeerNet(SubnetPeer(subnet), subnet);
    FlatMapMember(Configurator.BlockSubnets(), m.blocks.value, subnet);
    assert subnet in Configurator.BlockSubnets()(block);
    var subnets := FlatMap(Configurator.BlockSubnets(), m.blocks.value);
    FlatMapMember(Configurator.SubnetPeers(), subnets, pn);
    assert pn in Configurator.SubnetPeers()(subnet);
  }

  lemma PodPeerIn(cache: PodCache, m: Match, pod: PodID)
    requires m.pods.Some? && pod in m.pods.value && pod in cache && cache[pod].HasAddress?
    ensures Configurator.PeerNet(PodPeer(pod), OneHost(cache[pod].ip)) in Configurator.Peers(cache, m)
  {
    hide FlatMap;
    var pn := Configurator.PeerNet(PodPeer(pod), OneHost(cache[pod].ip));
    FlatMapMember(Configurator.PodPeers(cache), m.pods.value, pn);
    assert pn in Configurator.PodPeers(cache)(pod);
  }

  /** A whole block of all addresses has no long subnet, and every other block only long ones. */
  lemma LongSubnet(block: IPBlock, subnet: Prefix)
    requires subnet in Expand(block.network, block.except)
    ensures subnet.plen >= 1 <==> !(Configurator.Whole(block) && block.network.plen == 0)
  {
    hide Expand;
    ExpandWhole(block.network, block.except);
    ExpandPieces(block.network, block.except);
  }

  lemma StrongPeerOnly(cache: PodCache, m: Match, pn: Configurator.PeerNet, a: Bits)
    requires pn in Configurator.Peers(cache, m) && MatchesNet(pn.net, a)
    ensures pn.net.AnyNet? ==> m.pods.None? && m.blocks.None?
    ensures pn.net.Subnet? && pn.net.plen >= 1 ==>
              || (m.pods.Some? && SomePodHas(cache, m.pods.value, a))
              || (m.blocks.Some? && LongBlockCovers(m.blocks.value, a))
  {
    hide Expand, Configurator.Whole, FlatMap, BlockCovers;
    var pods, blocks := Configurator.OrEmpty(m.pods), Configurator.OrEmpty(m.blocks);
    var subnets := FlatMap(Configurator.BlockSubnets(), blocks);
    FlatMapMember(Configurator.PodPeers(cache), pods, pn);
    FlatMapMember(Configurator.SubnetPeers(), subnets, pn);
    if pod :| pod in pods && pn in Configurator.PodPeers(cache)(pod) {
      assert m.pods.Some? && IsPodAddress(cache, pod, a);
    } else if subnet :| subnet in subnets && pn in Configurator.SubnetPeers()(subnet) {
      FlatMapMember(Configurator.BlockSubnets(), blocks, subnet);
      var block :| block in blocks && subnet in Configurator.BlockSubnets()(block);
      LongSubnet(block, subnet);
      PieceCovers(block, subnet, a);
      assert m.blocks.Some?;
    }
  }

  lemma PieceCovers(block: IPBlock, subnet: Prefix, a: Bits)
    requires subnet in Expand(block.network, block.except) && Contains(subnet, a)
    ensures BlockCovers(block, a)
  {
    hide Expand, Contains;
    ExpandMember(block.network, block.except, a);
    assert Covers(Expand(block.network, block.except), a);
  }

  lemma StrongPeerExists(cache: PodCache, m: Match, a: Bits) returns (pn: Configurator.PeerNet)
    requires || (m.pods.Some? && SomePodHas(cache, m.pods.value, a))
             || (m.blocks.Some? && LongBlockCovers(m.blocks.value, a))
    ensures pn in Configurator.Peers(cache, m) && MatchesNet(pn.net, a) && pn.net.Subnet? && pn.net.plen >= 1
  {
    hide Expand, Configurator.Whole, FlatMap, Configurator.Peers;
    if m.pods.Some? && SomePodHas(cache, m.pods.value, a) {
      var pod :| pod in m.pods.value && IsPodAddress(cache, pod, a);
      PodPeerIn(cache, m, pod);
      pn := Configurator.PeerNet(PodPeer(pod), OneHost(cache[pod].ip));
    } else {
      var block :| block in m.blocks.value && BlockCovers(block, a) &&
                   !(Configurator.Whole(block) && block.network.plen == 0);
      var subnets := Expand(block.network, block.except);
      ExpandMember(block.network, block.except, a);
      var i :| 0 <= i < |subnets| && Contains(subnets[i], a);
      LongSubnet(block, subnets[i]);
      SubnetPeerIn(cache, m, block, subnets[i]);
      pn := Configurator.PeerNet(SubnetPeer(subnets[i]), subnets[i]);
    }
  }

  /** What a permit rule matches, and whether it stays effective. */
  lemma PermitRuleIs(text: NetText, dir: MatchType, id: PolicyID, pn: Configurator.PeerNet, port: Port, p: Packet)
    ensures var r := Configurator.PermitRule(text, dir, id, pn, port);
            && (RuleHits(dir == MatchIngress, r, QueryOf(dir, p)) <==>
                  MatchesNet(pn.net, PeerAddress(dir, p)) && port.proto == p.proto && MatchesPort(port.number, p.destPort))
            && (Matches(r, p) <==> RuleHits(dir == MatchIngress, r, QueryOf(dir, p)))
            && (Effective(dir == MatchIngress, r) <==> Strong(pn, port))
  {
    hide PermitText;
  }

  lemma SurvivorExists(cache: PodCache, dir: MatchType, m: Match, p: Packet) returns (pn: Configurator.PeerNet, port: Port)
    requires Survives(cache, dir, m, p)
    ensures pn in Configurator.Peers(cache, m) && port in Configurator.EffectivePorts(m.ports) && Strong(pn, port)
    ensures MatchesNet(pn.net, PeerAddress(dir, p)) && port.proto == p.proto && MatchesPort(port.number, p.destPort)
  {
    hide LongBlockCovers, SomePodHas;
    if m.pods.None? && m.blocks.None? {
      pn := Configurator.PeerNet(AnyPeer, AnyNet);
      assert pn in Configurator.AnyPeers(m);
      port :| port in m.ports && port.proto == p.proto && port.number == p.destPort && port.number != 0;
    } else {
      pn := StrongPeerExists(cache, m, PeerAddress(dir, p));
      ConfiguratorMeaning.EffectivePortsMeaning(m, p);
      port :| port in Configurator.EffectivePorts(m.ports) && port.proto == p.proto && MatchesPort(port.number, p.destPort);
    }
  }

  lemma StrongSurvives(cache: PodCache, dir: MatchType, m: Match, pn: Configurator.PeerNet, port: Port, p: Packet)
    requires m.mtype == dir && pn in Configurator.Peers(cache, m) && port in Configurator.EffectivePorts(m.ports)
    requires MatchesNet(pn.net, PeerAddress(dir, p)) && port.proto == p.proto && MatchesPort(port.number, p.destPort)
    requires Strong(pn, port)
    ensures Survives(cache, dir, m, p)
  {
    hide LongBlockCovers, SomePodHas, Configurator.Peers;
    StrongPeerOnly(cache, m, pn, PeerAddress(dir, p));
    ConfiguratorMeaning.EffectivePortsMeaning(m, p);
    if pn.net.AnyNet? {
      assert port in m.ports;
    }
  }

  lemma PermitsOfList(text: NetText, cache: PodCache, dir: MatchType, policies: seq<ContivPolicy>, p: Packet)
    ensures var rules, permits := Configurator.Intended(text, cache, dir, policies), Configurator.Kept(text, cache, dir, policies);
            && (HasDeny(rules) <==> Configurator.HasPolicy(dir, policies) && !Configurator.AllAllowed(dir, policies))
            && (forall r :: r in permits ==> r in Configurator.Candidates(text, cache, dir, policies))
            && (forall r :: PermitFor(dir == MatchIngress, rules, QueryOf(dir, p), r) <==> r in permits && Matches(r, p))
  {
    hide Configurator.Intended, Configurator.Candidates, Configurator.Kept, Configurator.HasPolicy, Configurator.AllAllowed,
         Configurator.PermitRule, RuleHits, Matches, QueryOf;
    var egress, q := dir == MatchIngress, QueryOf(dir, p);
    ConfiguratorMeaning.IntendedShape(text, cache, dir, policies);
    var permits := Configurator.Kept(text, cache, dir, policies);
    var denies := Configurator.DenyTheRest(dir, policies);
    var rules := Configurator.Intended(text, cache, dir, policies);
    assert forall j :: 0 <= j < |permits| ==> permits[j] in permits;
    if denies != [] {
      assert rules[|permits|].action == ActionDeny;
    }
    forall c | c in permits ensures RuleHits(egress, c, q) <==> Matches(c, p) {
      var policy, m, pn, port := ConfiguratorMeaning.CandidateOf(text, cache, dir, policies, c);
      PermitRuleIs(text, dir, policy.id, pn, port, p);
    }
  }

  /** Only rules of matches that survive stay effective, and all of them if no rule is lost. */
  lemma EffectiveIff(text: NetText, cache: PodCache, dir: MatchType, policies: seq<ContivPolicy>, p: Packet)
    ensures var effective := SomeEffectiveFor(dir == MatchIngress, Configurator.Intended(text, cache, dir, policies), QueryOf(dir, p));
            && (effective ==> SomeSurvives(cache, dir, policies, p))
            && (IDsDistinct(Configurator.Candidates(text, cache, dir, policies)) ==>
                  (effective <==> SomeSurvives(cache, dir, policies, p)))
  {
    hide Configurator.Intended, Configurator.Candidates, Configurator.Kept, Configurator.Peers, Configurator.EffectivePorts,
         Configurator.PermitRule, RuleHits, Matches, Survives, Strong, PermitFor, Effective, MatchesNet, MatchesPort, QueryOf, IDsDistinct;
    var egress, q := dir == MatchIngress, QueryOf(dir, p);
    var rules := Configurator.Intended(text, cache, dir, policies);
    PermitsOfList(text, cache, dir, policies, p);
    ConfiguratorMeaning.IntendedShape(text, cache, dir, policies);
    if r :| PermitFor(egress, rules, q, r) && Effective(egress, r) {
      var policy, m, pn, port := ConfiguratorMeaning.CandidateOf(text, cache, dir, policies, r);
      PermitRuleIs(text, dir, policy.id, pn, port, p);
      StrongSurvives(cache, dir, m, pn, port, p);
    }
    if policy, m :| policy in policies && Applies(policy, dir) && m in policy.matches && Survives(cache, dir, m, p) {
      var pn, port := SurvivorExists(cache, dir, m, p);
      assert m.mtype == dir by { SurvivorType(cache, dir, m, p); }
      ConfiguratorMeaning.CandidateIn(text, cache, dir, policies, policy, m, pn, port);
      PermitRuleIs(text, dir, policy.id, pn, port, p);
      var c := Configurator.PermitRule(text, dir, policy.id, pn, port);
      assert IDsDistinct(Configurator.Candidates(text, cache, dir, policies)) ==> PermitFor(egress, rules, q, c) && Effective(egress, c);
    }
  }

  lemma SurvivorType(cache: PodCache, dir: MatchType, m: Match, p: Packet)
    requires Survives(cache, dir, m, p)
    ensures m.mtype == dir
  {
  }

  /** A generated list whose rules are told apart by their IDs is starved of a connection if and only
      if the policies allow it by matches none of which survives. */
  lemma StarvedIff(text: NetText, cache: PodCache, dir: MatchType, policies: seq<ContivPolicy>, p: Packet)
    requires IDsDistinct(Configurator.Candidates(text, cache, dir, policies))
    ensures Starved(dir == MatchIngress, Configurator.Intended(text, cache, dir, policies), QueryOf(dir, p)) <==>
            Starving(cache, dir, policies, p)
  {
    hide Configurator.Intended, Configurator.Candidates, Configurator.Kept, Configurator.AllAllowed, RuleHits, Matches, SomeSurvives,
         PermitFor, Effective, SomeEffectiveFor, PolicyCovers, HasDeny, IDsDistinct;
    PermitsOfList(text, cache, dir, policies, p);
    EffectiveIff(text, cache, dir, policies, p);
    ConfiguratorMeaning.KeptCovers(text, cache, dir, policies, p);
    assert SomePolicyCovers(cache, dir, policies, p) ==> Configurator.HasPolicy(dir, policies) by {
      if policy :| policy in policies && PolicyCovers(cache, dir, policy, p) {
        ConfiguratorMeaning.CoverApplies(cache, dir, policy, p);
      }
    }
    var egress, rules, q := dir == MatchIngress, Configurator.Intended(text, cache, dir, policies), QueryOf(dir, p);
    assert SomePermitFor(egress, rules, q) <==> AnyMatches(Configurator.Kept(text, cache, dir, policies), p) by {
      if c :| c in Configurator.Kept(text, cache, dir, policies) && Matches(c, p) {
        assert PermitFor(egress, rules, q, c);
      }
      if c :| PermitFor(egress, rules, q, c) {
        assert c in Configurator.Kept(text, cache, dir, policies) && Matches(c, p);
      }
    }
  }

  /** No explicit port 0 without peers, and no block of all addresses. */
  predicate PlainMatch(m: Match) {
    && (m.pods.None? && m.blocks.None? ==> forall port :: port in m.ports ==> port.number != 0)
    && (m.blocks.Some? ==> forall block :: block in m.blocks.value ==> block.network.plen >= 1)
  }

  predicate PlainPolicies(policies: seq<ContivPolicy>) {
    forall policy, m :: policy in policies && m in policy.matches ==> PlainMatch(m)
  }

  lemma PlainStrong(cache: PodCache, dir: MatchType, m: Match, pn: Configurator.PeerNet, port: Port)
    requires PlainMatch(m) && m.mtype == dir && !Configurator.MatchesAnything(dir, m)
    requires pn in Configurator.Peers(cache, m) && port in Configurator.EffectivePorts(m.ports)
    ensures Strong(pn, port)
  {
    hide PlainMatch, Expand;
    var subnets := FlatMap(Configurator.BlockSubnets(), Configurator.OrEmpty(m.blocks));
    FlatMapMember(Configurator.PodPeers(cache), Configurator.OrEmpty(m.pods), pn);
    FlatMapMember(Configurator.SubnetPeers(), subnets, pn);
    if pn.peer.SubnetPeer? {
      var subnet :| subnet in subnets && pn in Configurator.SubnetPeers()(subnet);
      FlatMapMember(Configurator.BlockSubnets(), Configurator.OrEmpty(m.blocks), subnet);
      var block :| block in Configurator.OrEmpty(m.blocks) && subnet in Configurator.BlockSubnets()(block);
      ExpandPieces(block.network, block.except);
    }
    PlainParts(m);
  }

  lemma PlainParts(m: Match)
    requires PlainMatch(m)
    ensures forall port :: m.pods.None? && m.blocks.None? && port in m.ports ==> port.number != 0
    ensures forall block :: block in Configurator.OrEmpty(m.blocks) ==> block.network.plen >= 1
  {
  }

  /** Lists generated from plain policies are never starved. */
  lemma PlainNotStarved(text: NetText, cache: PodCache, dir: MatchType, policies: seq<ContivPolicy>, p: Packet)
    requires PlainPolicies(policies)
    ensures !Starved(dir == MatchIngress, Configurator.Intended(text, cache, dir, policies), QueryOf(dir, p))
  {
    hide Configurator.Intended, Configurator.Candidates, Configurator.Kept, Configurator.Peers, Configurator.PermitRule, PermitFor,
         Effective, Strong, RuleHits, Matches, PlainMatch, Configurator.MatchesAnything, HasDeny, QueryOf, MatchesNet, MatchesPort;
    PermitsOfList(text, cache, dir, policies, p);
    var egress, rules, q := dir == MatchIngress, Configurator.Intended(text, cache, dir, policies), QueryOf(dir, p);
    if HasDeny(rules) && SomePermitFor(egress, rules, q) {
      var r :| PermitFor(egress, rules, q, r);
      var policy, m, pn, port := ConfiguratorMeaning.CandidateOf(text, cache, dir, policies, r);
      assert !Configurator.AllowsAll(dir, policy);
      PlainStrong(cache, dir, m, pn, port);
      PermitRuleIs(text, dir, policy.id, pn, port, p);
      assert PermitFor(egress, rules, q, r) && Effective(egress, r);
    }
  }

  /** A policy that opens every port of one protocol to every peer starves its own connections. */
  lemma PortZeroStarves(cache: PodCache, dir: MatchType, id: PolicyID, ptype: PolicyType, p: Packet)
    requires Applies(ContivPolicy(id, ptype, []), dir)
    ensures var policies := [ContivPolicy(id, ptype, [Match(dir, None, None, [Port(p.proto, 0)])])];
            && PolicyVerdict(cache, dir, policies, p) == Meaning(cache, dir, policies, p) == Allowed
            && Starving(cache, dir, Configurator.SeenPolicies(policies), p)
  {
    var m := Match(dir, None, None, [Port(p.proto, 0)]);
    var policy := ContivPolicy(id, ptype, [m]);
    assert Configurator.SeenPolicy(policy).matches == [m];
    assert Configurator.SeenPolicies([policy]) == [policy];
    assert Port(p.proto, 0) in m.ports;
    assert MatchCovers(cache, dir, m, p);
    assert m in policy.matches;
    assert PolicyCovers(cache, dir, policy, p);
    assert policy in [policy];
  }

  /** The block of all addresses of a family. */
  function AllAddresses(length: nat): (block: IPBlock)
    requires length == 32 || length == 128
    ensures Configurator.Whole(block) && block.network.plen == 0
    ensures forall a: Bits :: |a| == length ==> BlockCovers(block, a)
  {
    IPBlock(Subnet(Zeros(length), 0), [])
  }

  /** So does a policy with a block of all addresses. */
  lemma AllAddressesStarve(cache: PodCache, dir: MatchType, id: PolicyID, ptype: PolicyType, ports: seq<Port>, length: nat, p: Packet)
    requires Applies(ContivPolicy(id, ptype, []), dir) && length == |PeerAddress(dir, p)| && (length == 32 || length == 128)
    requires ports == [] || SomePortMatches(ports, p)
    ensures var policies := [BlockCoverage.OneMatch(id, ptype, dir, [AllAddresses(length)], ports)];
            && PolicyVerdict(cache, dir, policies, p) == Meaning(cache, dir, policies, p) == Allowed
            && Starving(cache, dir, Configurator.SeenPolicies(policies), p)
  {
    var block := AllAddresses(length);
    var blocks := [block];
    var policy := BlockCoverage.OneMatch(id, ptype, dir, blocks, ports);
    assert Configurator.SeenBlocks(blocks) == blocks;
    hide SomePortMatches, AllAddresses, Configurator.Whole, BlockCovers;
    BlockCoverage.OneMatchSeen(id, ptype, dir, blocks, ports);
    assert block in blocks && BlockCovers(block, PeerAddress(dir, p));
    var m := policy.matches[0];
    assert m in policy.matches && MatchCovers(cache, dir, m, p);
    assert PolicyCovers(cache, dir, policy, p) && policy in [policy];
  }

  // ----- The tables of a host -----

  /** The configuration that the vpptcp renderer holds for the pods of the host. */
  ghost predicate Configured(text: NetText, cache: PodCache, policies: map<uint32, seq<ContivPolicy>>, cfg: Config) {
    && cfg.Keys == policies.Keys && DistinctIPs(cfg)
    && (forall ns :: ns in cfg ==>
          && cfg[ns].ingress == ListOf(text, cache, MatchEgress, policies[ns])
          && cfg[ns].egress == ListOf(text, cache, MatchIngress, policies[ns]))
  }

  /** The namespaces of a host belong to pods with policies, each with an address of its own. */
  ghost predicate HostPods(cache: PodCache, config: ConfiguratorTxn.TxnConfig, pods: map<uint32, PodID>) {
    && (forall ns :: ns in pods ==> pods[ns] in config && ConfiguratorTxn.Renderable(cache, pods[ns]))
    && (forall m, n :: m in pods && n in pods && cache[pods[m]] == cache[pods[n]] ==> m == n)
  }

  /** The policies of the pod of each namespace. */
  function PoliciesOf(config: ConfiguratorTxn.TxnConfig, pods: map<uint32, PodID>): map<uint32, seq<ContivPolicy>> {
    map ns | ns in pods && pods[ns] in config :: config[pods[ns]]
  }

  /** The configuration of the host, filled with what the configurator hands out for its pods. */
  function HostConfig(rendered: map<PodID, ConfiguratorTxn.Rendered>, pods: map<uint32, PodID>): Config {
    map ns | ns in pods && pods[ns] in rendered ::
      NamespaceConfig(rendered[pods[ns]].podIP.ip, rendered[pods[ns]].ingress, rendered[pods[ns]].egress)
  }

  lemma NamespaceConfigured(text: NetText, cache: PodCache, policies: seq<ContivPolicy>,
                            rendered: map<PodID, ConfiguratorTxn.Rendered>, pods: map<uint32, PodID>, ns: uint32)
    requires ns in pods && pods[ns] in rendered && ConfiguratorTxn.Renderable(cache, pods[ns])
    requires rendered[pods[ns]] == ConfiguratorTxn.Rendering(text, cache, pods[ns], policies)
    ensures ns in HostConfig(rendered, pods)
    ensures var c := HostConfig(rendered, pods)[ns];
            && cache[pods[ns]] == HasAddress(c.ip)
            && c.ingress == ListOf(text, cache, MatchEgress, policies)
            && c.egress == ListOf(text, cache, MatchIngress, policies)
  {
    hide Configurator.Generated, ConfiguratorTxn.SortPolicies;
  }

  lemma HostKeys(config: ConfiguratorTxn.TxnConfig, rendered: map<PodID, ConfiguratorTxn.Rendered>, pods: map<uint32, PodID>)
    requires forall ns :: ns in pods ==> pods[ns] in config && pods[ns] in rendered
    ensures HostConfig(rendered, pods).Keys == PoliciesOf(config, pods).Keys == pods.Keys
    ensures forall ns :: ns in pods ==> PoliciesOf(config, pods)[ns] == config[pods[ns]]
  {
  }

  lemma RenderedConfigured(text: NetText, cache: PodCache, config: ConfiguratorTxn.TxnConfig,
                           rendered: map<PodID, ConfiguratorTxn.Rendered>, pods: map<uint32, PodID>)
    requires HostPods(cache, config, pods)
    requires rendered.Keys == set pod | pod in config && ConfiguratorTxn.Renderable(cache, pod)
    requires forall pod :: pod in rendered ==> rendered[pod] == ConfiguratorTxn.Rendering(text, cache, pod, config[pod])
    ensures Configured(text, cache, PoliciesOf(config, pods), HostConfig(rendered, pods))
    ensures HostConfig(rendered, pods).Keys == pods.Keys
    ensures forall ns :: ns in pods ==> cache[pods[ns]] == HasAddress(HostConfig(rendered, pods)[ns].ip)
  {
    hide ListOf, HostConfig, PoliciesOf, ConfiguratorTxn.Rendering;
    forall ns | ns in pods ensures pods[ns] in rendered {
      assert pods[ns] in config && ConfiguratorTxn.Renderable(cache, pods[ns]);
    }
    HostKeys(config, rendered, pods);
    var cfg := HostConfig(rendered, pods);
    forall ns | ns in pods
      ensures cache[pods[ns]] == HasAddress(cfg[ns].ip)
      ensures cfg[ns].ingress == ListOf(text, cache, MatchEgress, config[pods[ns]])
      ensures cfg[ns].egress == ListOf(text, cache, MatchIngress, config[pods[ns]])
    {
      NamespaceConfigured(text, cache, config[pods[ns]], rendered, pods, ns);
    }
  }

  /** What Commit hands out for the pods of a host configures the host: the tables of the host decide
      as LocalTableMeaning and GlobalTableMeaning say about the policies that Commit was given. */
  method CommittedConfig(text: NetText, cache: PodCache, config: ConfiguratorTxn.TxnConfig, pods: map<uint32, PodID>) returns (cfg: Config)
    requires ConfiguratorTxn.IdsDetermine(ConfiguratorTxn.AllPolicies(config))
    requires HostPods(cache, config, pods)
    ensures Configured(text, cache, PoliciesOf(config, pods), cfg)
    ensures cfg.Keys == pods.Keys && forall ns :: ns in pods ==> cache[pods[ns]] == HasAddress(cfg[ns].ip)
  {
    hide Configured, PoliciesOf, HostConfig, HostPods, ConfiguratorTxn.Rendering, ConfiguratorTxn.Enforces,
         ConfiguratorTxn.AllPolicies, ConfiguratorTxn.IdsDetermine;
    var started, rendered := ConfiguratorTxn.Commit(text, cache, config);
    RenderedConfigured(text, cache, config, rendered, pods);
    cfg := HostConfig(rendered, pods);
  }

  lemma ConfiguredShape(text: NetText, cache: PodCache, policies: map<uint32, seq<ContivPolicy>>, cfg: Config)
    requires Configured(text, cache, policies, cfg)
    ensures WellShaped(cfg)
  {
    hide Configurator.Intended, Configurator.SeenPolicies, ConfiguratorTxn.SortPolicies, HasShape, OneSided;
    forall ns | ns in cfg
      ensures HasShape(cfg[ns].ingress) && OneSided(false, cfg[ns].ingress) && HasShape(cfg[ns].egress) && OneSided(true, cfg[ns].egress)
    {
      IntendedRules(text, cache, MatchEgress, Configurator.SeenPolicies(ConfiguratorTxn.SortPolicies(policies[ns])));
      IntendedRules(text, cache, MatchIngress, Configurator.SeenPolicies(ConfiguratorTxn.SortPolicies(policies[ns])));
    }
  }

  lemma ListHasNoCombinedIDs(text: NetText, cache: PodCache, dir: MatchType, policies: seq<ContivPolicy>, c: CombinedID)
    ensures forall r :: r in ListOf(text, cache, dir, policies) ==> r.id != CombinedText(c)
  {
    hide Configurator.Intended, Configurator.SeenPolicies, Configurator.Kept, Configurator.Candidates, ConfiguratorTxn.SortPolicies,
         NoneText, CombinedText, PermitText;
    var seen := Configurator.SeenPolicies(ConfiguratorTxn.SortPolicies(policies));
    ConfiguratorMeaning.IntendedShape(text, cache, dir, seen);
    forall r | r in Configurator.Kept(text, cache, dir, seen) ensures r.id != CombinedText(c) {
      var policy, m, pn, port := ConfiguratorMeaning.CandidateOf(text, cache, dir, seen, r);
      CombinedIsNotPermit(text, policy.id, pn.peer, port, c);
    }
    forall r | r in Configurator.DenyTheRest(dir, seen) ensures r.id != CombinedText(c) {
      CombinedIsNotNone(r.proto, c);
    }
  }

  /** With the IDs that the source prints, and tags that tell texts apart, the IDs of a configured
      host tell its rules apart. */
  lemma ConfiguredIDs(text: NetText, cache: PodCache, policies: map<uint32, seq<ContivPolicy>>, tag: Tagging, cfg: Config)
    requires Configured(text, cache, policies, cfg)
    requires forall k, l :: tag(k) == tag(l) ==> k == l
    ensures SessionCache.GoodIDs(Names(CombinedText, tag), cfg)
  {
    hide ListOf, IDsDistinct, CombinedText;
    var names := Names(CombinedText, tag);
    forall c: CombinedID, d: CombinedID | c.ns == d.ns && names.combined(c) == names.combined(d) ensures c == d {
      CombinedTextTells(c, d);
    }
    forall ns | ns in cfg
      ensures IDsDistinct(cfg[ns].ingress) && IDsDistinct(cfg[ns].egress)
      ensures SessionCache.NoCombinedIDs(names, ns, cfg[ns].ingress)
    {
      ListIDsDistinct(text, cache, MatchEgress, policies[ns]);
      ListIDsDistinct(text, cache, MatchIngress, policies[ns]);
      forall r, c: CombinedID | r in cfg[ns].ingress && c.ns == ns ensures names.combined(c) != r.id {
        ListHasNoCombinedIDs(text, cache, MatchEgress, policies[ns], c);
      }
    }
  }

  /** What the policies say about a connection opened by a pod: neither the egress policies of
      the pod nor the ingress policies of its peer on the host deny it. */
  ghost predicate PoliciesPermit(cache: PodCache, policies: map<uint32, seq<ContivPolicy>>, cfg: Config, ns: uint32, p: Packet)
    requires ns in cfg && cfg.Keys == policies.Keys
  {
    && PolicyVerdict(cache, MatchEgress, policies[ns], p) != Denied
    && forall rmt :: rmt in cfg && rmt != ns && cfg[rmt].ip == p.dest ==> PolicyVerdict(cache, MatchIngress, policies[rmt], p) != Denied
  }

  /** IDs tell apart the rules of both ends of a connection. */
  ghost predicate EndsTold(text: NetText, cache: PodCache, policies: map<uint32, seq<ContivPolicy>>, cfg: Config, ns: uint32, p: Packet)
    requires ns in cfg && cfg.Keys == policies.Keys
  {
    && ConfiguratorMeaning.Told(text, cache, MatchEgress, policies[ns])
    && forall rmt :: rmt in cfg && rmt != ns && cfg[rmt].ip == p.dest ==> ConfiguratorMeaning.Told(text, cache, MatchIngress, policies[rmt])
  }

  lemma PermitIsMeaning(text: NetText, cache: PodCache, policies: map<uint32, seq<ContivPolicy>>, cfg: Config, ns: uint32, p: Packet)
    requires Configured(text, cache, policies, cfg) && ns in cfg
    ensures BothPermit(cfg, ns, p) ==> PoliciesPermit(cache, policies, cfg, ns, p)
    ensures EndsTold(text, cache, policies, cfg, ns, p) ==>
              (BothPermit(cfg, ns, p) <==> PoliciesPermit(cache, policies, cfg, ns, p))
  {
    hide ListOf, PolicyVerdict, Permits, ConfiguratorMeaning.Told;
    ListMeaning(text, cache, MatchEgress, policies[ns], p);
    forall rmt | rmt in cfg
      ensures Permits(cfg[rmt].egress, p) ==> PolicyVerdict(cache, MatchIngress, policies[rmt], p) != Denied
      ensures ConfiguratorMeaning.Told(text, cache, MatchIngress, policies[rmt]) ==>
                (Permits(cfg[rmt].egress, p) <==> PolicyVerdict(cache, MatchIngress, policies[rmt], p) != Denied)
    {
      ListMeaning(text, cache, MatchIngress, policies[rmt], p);
    }
  }

  lemma SortKeepsStarving(cache: PodCache, dir: MatchType, policies: seq<ContivPolicy>, p: Packet)
    ensures Starving(cache, dir, Configurator.SeenPolicies(ConfiguratorTxn.SortPolicies(policies)), p) <==>
            Starving(cache, dir, Configurator.SeenPolicies(policies), p)
  {
    hide ConfiguratorTxn.SortPolicies, Configurator.SeenPolicies, PolicyCovers, Survives, Configurator.AllowsAll, Applies;
    forall x ensures x in Configurator.SeenPolicies(ConfiguratorTxn.SortPolicies(policies)) <==> x in Configurator.SeenPolicies(policies) {
      ConfiguratorTxn.SortedSeen(policies, x);
    }
  }

  /** The list of a pod is starved if and only if its policies are, if IDs tell its rules apart. */
  lemma ListStarvedIff(text: NetText, cache: PodCache, dir: MatchType, policies: seq<ContivPolicy>, p: Packet)
    requires ConfiguratorMeaning.Told(text, cache, dir, policies)
    ensures Starved(dir == MatchIngress, ListOf(text, cache, dir, policies), QueryOf(dir, p)) <==>
            Starving(cache, dir, Configurator.SeenPolicies(policies), p)
  {
    hide Starved, Starving, IDsDistinct, Configurator.Candidates, Configurator.Intended, Configurator.SeenPolicies,
         ConfiguratorTxn.SortPolicies;
    ConfiguratorTxn.SortedTold(text, cache, dir, policies);
    StarvedIff(text, cache, dir, Configurator.SeenPolicies(ConfiguratorTxn.SortPolicies(policies)), p);
    SortKeepsStarving(cache, dir, policies, p);
  }

  /** A local table never permits a connection of its pod that the policies of either end deny.  If
      IDs tell their rules apart, it decides as the policies do if and only if it has rules made for
      the destination or the egress policies are not starving. */
  lemma LocalTableMeaning(text: NetText, cache: PodCache, policies: map<uint32, seq<ContivPolicy>>, names: Names,
                          cfg: Config, ns: uint32, table: seq<SessionRule>, lcl: Address, p: Packet)
    requires Configured(text, cache, policies, cfg) && ns in cfg && IsLocalTable(names, cfg, ns, table)
    requires p.src == cfg[ns].ip && IsAddress(p.dest)
    ensures var permits := TablePermits(table, Outgoing(ns, lcl, p.dest, p.proto, p.destPort));
            && (permits ==> PoliciesPermit(cache, policies, cfg, ns, p))
            && (EndsTold(text, cache, policies, cfg, ns, p) ==>
                  ((permits <==> PoliciesPermit(cache, policies, cfg, ns, p)) <==>
                    HasOwnRules(cfg, ns, QueryOf(MatchEgress, p)) ||
                    !Starving(cache, MatchEgress, Configurator.SeenPolicies(policies[ns]), p)))
  {
    hide TablePermits, IsLocalTable, Outgoing, BothPermit, PoliciesPermit, Starved, HasOwnRules, Starving, WellShaped,
         ListOf, Configurator.SeenPolicies, ConfiguratorMeaning.Told;
    ConfiguredShape(text, cache, policies, cfg);
    LocalTableDecision(names, cfg, ns, table, lcl, p);
    PermitIsMeaning(text, cache, policies, cfg, ns, p);
    if EndsTold(text, cache, policies, cfg, ns, p) {
      ListStarvedIff(text, cache, MatchEgress, policies[ns], p);
    }
  }

  /** The global table never permits a connection to a pod that the ingress policies of the pod deny.
      If IDs tell the rules of the pod apart, it decides as they do if and only if they are not
      starving. */
  lemma GlobalTableMeaning(text: NetText, cache: PodCache, policies: map<uint32, seq<ContivPolicy>>, names: Names,
                           cfg: Config, b: uint32, table: seq<SessionRule>, p: Packet)
    requires Configured(text, cache, policies, cfg) && b in cfg && IsGlobalTable(names, cfg, table) && Isolated(cfg, b)
    requires p.dest == cfg[b].ip && |p.src| == |p.dest|
    ensures var permits := TablePermits(table, Incoming(cfg[b].ip, p.src, p.proto, p.srcPort, p.destPort));
            && (permits ==> PolicyVerdict(cache, MatchIngress, policies[b], p) != Denied)
            && (ConfiguratorMeaning.Told(text, cache, MatchIngress, policies[b]) ==>
                  ((permits <==> PolicyVerdict(cache, MatchIngress, policies[b], p) != Denied) <==>
                    !Starving(cache, MatchIngress, Configurator.SeenPolicies(policies[b]), p)))
  {
    hide TablePermits, IsGlobalTable, Incoming, Isolated, Starved, Starving, WellShaped, PolicyVerdict, Permits,
         ListOf, Configurator.SeenPolicies, ConfiguratorMeaning.Told;
    ConfiguredShape(text, cache, policies, cfg);
    GlobalTableDecision(names, cfg, table, b, p);
    ListMeaning(text, cache, MatchIngress, policies[b], p);
    if ConfiguratorMeaning.Told(text, cache, MatchIngress, policies[b]) {
      ListStarvedIff(text, cache, MatchIngress, policies[b], p);
    }
  }

  /** A pod whose only policy opens every port of a protocol to every peer can open no connection
      of that protocol to a peer without rules of its own, though the policies permit it. */
  lemma PortZeroDenied(text: NetText, cache: PodCache, policies: map<uint32, seq<ContivPolicy>>, names: Names, cfg: Config,
                       ns: uint32, table: seq<SessionRule>, lcl: Address, id: PolicyID, ptype: PolicyType, p: Packet)
    requires Configured(text, cache, policies, cfg) && ns in cfg && IsLocalTable(names, cfg, ns, table)
    requires p.src == cfg[ns].ip && IsAddress(p.dest) && !HasOwnRules(cfg, ns, QueryOf(MatchEgress, p))
    requires Applies(ContivPolicy(id, ptype, []), MatchEgress)
    requires policies[ns] == [ContivPolicy(id, ptype, [Match(MatchEgress, None, None, [Port(p.proto, 0)])])]
    ensures PoliciesPermit(cache, policies, cfg, ns, p)
    ensures !TablePermits(table, Outgoing(ns, lcl, p.dest, p.proto, p.destPort))
  {
    hide TablePermits, IsLocalTable, Outgoing, PoliciesPermit, BothPermit, HasOwnRules, Starving, Starved, WellShaped, ListOf,
         Configurator.SeenPolicies, ConfiguratorMeaning.Told;
    ConfiguredShape(text, cache, policies, cfg);
    LocalTableDecision(names, cfg, ns, table, lcl, p);
    PermitIsMeaning(text, cache, policies, cfg, ns, p);
    PortZeroTold(text, cache, MatchEgress, id, ptype, p.proto);
    ListStarvedIff(text, cache, MatchEgress, policies[ns], p);
    PortZeroStarves(cache, MatchEgress, id, ptype, p);
  }

  lemma PortZeroTold(text: NetText, cache: PodCache, dir: MatchType, id: PolicyID, ptype: PolicyType, proto: Protocol)
    ensures ConfiguratorMeaning.Told(text, cache, dir, [ContivPolicy(id, ptype, [Match(dir, None, None, [Port(proto, 0)])])])
  {
    hide Configurator.Candidates, Configurator.Peers, PermitText;
    var m := Match(dir, None, None, [Port(proto, 0)]);
    var policy := ContivPolicy(id, ptype, [m]);
    assert Configurator.SeenPolicy(policy).matches == [m];
    assert Configurator.SeenPolicies([policy]) == [policy];
    forall r | r in Configurator.Candidates(text, cache, dir, [policy])
      ensures r == Configurator.PermitRule(text, dir, id, Configurator.PeerNet(AnyPeer, AnyNet), Port(proto, 0))
    {
      var x, y, pn, port := ConfiguratorMeaning.CandidateOf(text, cache, dir, [policy], r);
      AnyPeerOnly(cache, m, pn);
    }
  }

  lemma AnyPeerOnly(cache: PodCache, m: Match, pn: Configurator.PeerNet)
    requires m.pods.None? && m.blocks.None? && pn in Configurator.Peers(cache, m)
    ensures pn == Configurator.PeerNet(AnyPeer, AnyNet)
  {
    FlatMapMember(Configurator.PodPeers(cache), Configurator.OrEmpty(m.pods), pn);
    FlatMapMember(Configurator.SubnetPeers(), FlatMap(Configurator.BlockSubnets(), Configurator.OrEmpty(m.blocks)), pn);
  }

  /** A pod whose only policy admits all addresses is reached by none of them. */
  lemma AllAddressesDenied(text: NetText, cache: PodCache, policies: map<uint32, seq<ContivPolicy>>, names: Names, cfg: Config,
                           b: uint32, table: seq<SessionRule>, id: PolicyID, ptype: PolicyType, p: Packet)
    requires Configured(text, cache, policies, cfg) && b in cfg && IsGlobalTable(names, cfg, table) && Isolated(cfg, b)
    requires p.dest == cfg[b].ip && |p.src| == |p.dest|
    requires Applies(ContivPolicy(id, ptype, []), MatchIngress)
    requires policies[b] == [BlockCoverage.OneMatch(id, ptype, MatchIngress, [AllAddresses(|p.src|)], [])]
    ensures PolicyVerdict(cache, MatchIngress, policies[b], p) == Allowed
    ensures !TablePermits(table, Incoming(cfg[b].ip, p.src, p.proto, p.srcPort, p.destPort))
  {
    hide TablePermits, IsGlobalTable, Incoming, Isolated, Starving, Configured, Configurator.SeenPolicies, PolicyVerdict,
         BlockCoverage.OneMatch, AllAddresses, ConfiguratorMeaning.Told;
    GlobalTableMeaning(text, cache, policies, names, cfg, b, table, p);
    BlockCoverage.OneMatchTold(text, cache, id, ptype, MatchIngress, [AllAddresses(|p.src|)], []);
    AllAddressesStarve(cache, MatchIngress, id, ptype, [], |p.src|, p);
  }
}
