/** What the rules generated from policies mean
    (plugins/policy/configurator/configurator_impl.go). */
module ConfiguratorMeaning {
  import opened Base
  import opened Net
  import opened Rules
  import opened Policies
  import opened RuleIDs
  import opened Configurator

  // ----- Meaning is preserved -----

  lemma AnyMatchesFlatMap<A>(f: A -> seq<Rule>, s: seq<A>, p: Packet)
    ensures AnyMatches(FlatMap(f, s), p) <==> exists x :: x in s && AnyMatches(f(x), p)
  {
    hide Matches;
    if AnyMatches(FlatMap(f, s), p) {
      var r :| r in FlatMap(f, s) && Matches(r, p);
      FlatMapMember(f, s, r);
    }
    if x :| x in s && AnyMatches(f(x), p) {
      var r :| r in f(x) && Matches(r, p);
      FlatMapMember(f, s, r);
    }
  }

  predicate SomePeerMatches(peers: seq<PeerNet>, a: Bits) {
    exists pn :: pn in peers && MatchesNet(pn.net, a)
  }

  lemma SomePeerMatchesFlatMap<A>(f: A -> seq<PeerNet>, s: seq<A>, a: Bits)
    ensures SomePeerMatches(FlatMap(f, s), a) <==> exists x :: x in s && SomePeerMatches(f(x), a)
  {
    hide MatchesNet;
    if SomePeerMatches(FlatMap(f, s), a) {
      var pn :| pn in FlatMap(f, s) && MatchesNet(pn.net, a);
      FlatMapMember(f, s, pn);
    }
    if x :| x in s && SomePeerMatches(f(x), a) {
      var pn :| pn in f(x) && MatchesNet(pn.net, a);
      FlatMapMember(f, s, pn);
    }
  }

  lemma EffectivePortsMeaning(m: Match, p: Packet)
    ensures SomePortMatches(EffectivePorts(m.ports), p) <==> CoversPort(m, p)
  {
    if m.ports == [] {
      var port := EffectivePorts(m.ports)[if p.proto == TCP then 0 else 1];
      assert port in EffectivePorts(m.ports) && port == Port(p.proto, 0);
    }
  }

  lemma PermitRuleMatches(text: NetText, dir: MatchType, policy: PolicyID, pn: PeerNet, port: Port, p: Packet)
    ensures AnyMatches(PortRule(text, dir, policy, pn)(port), p) <==>
            MatchesNet(pn.net, PeerAddress(dir, p)) && port.proto == p.proto && MatchesPort(port.number, p.destPort)
  {
    var r := PermitRule(text, dir, policy, pn, port);
    assert r in PortRule(text, dir, policy, pn)(port);
  }

  lemma PeerRulesMeaning(text: NetText, dir: MatchType, policy: PolicyID, pn: PeerNet, ports: seq<Port>, p: Packet)
    ensures AnyMatches(PeerRules(text, dir, policy, ports)(pn), p) <==>
            MatchesNet(pn.net, PeerAddress(dir, p)) && SomePortMatches(EffectivePorts(ports), p)
  {
    hide MatchesNet, MatchesPort, PortRule;
    AnyMatchesFlatMap(PortRule(text, dir, policy, pn), EffectivePorts(ports), p);
    forall port
      ensures AnyMatches(PortRule(text, dir, policy, pn)(port), p) <==>
              MatchesNet(pn.net, PeerAddress(dir, p)) && port.proto == p.proto && MatchesPort(port.number, p.destPort)
    {
      PermitRuleMatches(text, dir, policy, pn, port, p);
    }
  }

  lemma PodPeersMeaning(cache: PodCache, pods: seq<PodID>, a: Bits)
    ensures SomePeerMatches(FlatMap(PodPeers(cache), pods), a) <==> SomePodHas(cache, pods, a)
  {
    SomePeerMatchesFlatMap(PodPeers(cache), pods, a);
    forall pod ensures SomePeerMatches(PodPeers(cache)(pod), a) <==> IsPodAddress(cache, pod, a) {
      if pod in cache && cache[pod].HasAddress? {
        assert PeerNet(PodPeer(pod), OneHost(cache[pod].ip)) in PodPeers(cache)(pod);
      }
    }
  }

  lemma CoversFlatMap<A>(f: A -> seq<Prefix>, s: seq<A>, a: Bits)
    ensures Covers(FlatMap(f, s), a) <==> exists x :: x in s && Covers(f(x), a)
  {
    hide Contains;
    if Covers(FlatMap(f, s), a) {
      var i :| 0 <= i < |FlatMap(f, s)| && Contains(FlatMap(f, s)[i], a);
      FlatMapMember(f, s, FlatMap(f, s)[i]);
      var x :| x in s && FlatMap(f, s)[i] in f(x);
      assert Covers(f(x), a);
    }
    if x :| x in s && Covers(f(x), a) {
      var i :| 0 <= i < |f(x)| && Contains(f(x)[i], a);
      FlatMapMember(f, s, f(x)[i]);
      assert f(x)[i] in FlatMap(f, s);
    }
  }

  lemma BlocksCover(blocks: seq<IPBlock>, a: Bits)
    ensures Covers(FlatMap(BlockSubnets(), blocks), a) <==> SomeBlockCovers(blocks, a)
  {
    hide Contains, Expand, FlatMap;
    CoversFlatMap(BlockSubnets(), blocks, a);
    forall block: IPBlock ensures Covers(BlockSubnets()(block), a) <==> BlockCovers(block, a) {
      ExpandMember(block.network, block.except, a);
    }
  }

  lemma BlockPeersMeaning(blocks: seq<IPBlock>, a: Bits)
    ensures SomePeerMatches(FlatMap(SubnetPeers(), FlatMap(BlockSubnets(), blocks)), a) <==> SomeBlockCovers(blocks, a)
  {
    hide Contains, Expand;
    var subnets := FlatMap(BlockSubnets(), blocks);
    SomePeerMatchesFlatMap(SubnetPeers(), subnets, a);
    forall subnet: Prefix ensures SomePeerMatches(SubnetPeers()(subnet), a) <==> Contains(subnet, a) {
      assert PeerNet(SubnetPeer(subnet), subnet) in SubnetPeers()(subnet);
    }
    BlocksCover(blocks, a);
    assert Covers(subnets, a) <==> exists subnet: Prefix :: subnet in subnets && Contains(subnet, a) by {
      if Covers(subnets, a) {
        var i :| 0 <= i < |subnets| && Contains(subnets[i], a);
        assert subnets[i] in subnets;
      }
    }
  }

  lemma SomePeerMatchesConcat(x: seq<PeerNet>, y: seq<PeerNet>, a: Bits)
    ensures SomePeerMatches(x + y, a) <==> SomePeerMatches(x, a) || SomePeerMatches(y, a)
  {
    hide MatchesNet;
    if SomePeerMatches(x, a) {
      var pn :| pn in x && MatchesNet(pn.net, a);
      assert pn in x + y;
    }
    if SomePeerMatches(y, a) {
      var pn :| pn in y && MatchesNet(pn.net, a);
      assert pn in x + y;
    }
  }

  lemma PeersMeaning(cache: PodCache, m: Match, a: Bits)
    ensures SomePeerMatches(Peers(cache, m), a) <==> CoversPeer(cache, m, a)
  {
    hide SomePodHas, SomeBlockCovers;
    var pods := FlatMap(PodPeers(cache), OrEmpty(m.pods));
    var subnets := FlatMap(SubnetPeers(), FlatMap(BlockSubnets(), OrEmpty(m.blocks)));
    SomePeerMatchesConcat(AnyPeers(m), pods, a);
    SomePeerMatchesConcat(AnyPeers(m) + pods, subnets, a);
    PodPeersMeaning(cache, OrEmpty(m.pods), a);
    BlockPeersMeaning(OrEmpty(m.blocks), a);
    assert m.pods.None? && m.blocks.None? ==> PeerNet(AnyPeer, AnyNet) in AnyPeers(m);
    assert !SomePodHas(cache, [], a) && !SomeBlockCovers([], a) by { NothingCovered(cache, a); }
  }

  lemma NothingCovered(cache: PodCache, a: Bits)
    ensures !SomePodHas(cache, [], a) && !SomeBlockCovers([], a)
  {
  }

  lemma MatchRulesMeaning(text: NetText, cache: PodCache, dir: MatchType, policy: PolicyID, m: Match, p: Packet)
    ensures AnyMatches(MatchRules(text, cache, dir, policy)(m), p) <==> MatchCovers(cache, dir, m, p)
  {
    hide MatchesNet, SomePortMatches, CoversPeer, CoversPort, PeerRules, Peers;
    var f := PeerRules(text, dir, policy, m.ports);
    AnyMatchesFlatMap(f, Peers(cache, m), p);
    forall pn ensures AnyMatches(f(pn), p) <==>
                      MatchesNet(pn.net, PeerAddress(dir, p)) && SomePortMatches(EffectivePorts(m.ports), p) {
      PeerRulesMeaning(text, dir, policy, pn, m.ports, p);
    }
    PeersMeaning(cache, m, PeerAddress(dir, p));
    EffectivePortsMeaning(m, p);
  }

  lemma CandidatesMeaning(text: NetText, cache: PodCache, dir: MatchType, policies: seq<ContivPolicy>, p: Packet)
    ensures AnyMatches(Candidates(text, cache, dir, policies), p) <==> SomePolicyCovers(cache, dir, policies, p)
  {
    hide MatchRules, MatchCovers, Matches;
    var f := PolicyRules(text, cache, dir);
    AnyMatchesFlatMap(f, policies, p);
    forall policy: ContivPolicy ensures AnyMatches(f(policy), p) <==> PolicyCovers(cache, dir, policy, p) {
      AnyMatchesFlatMap(MatchRules(text, cache, dir, policy.id), policy.matches, p);
      forall m ensures AnyMatches(MatchRules(text, cache, dir, policy.id)(m), p) <==> MatchCovers(cache, dir, m, p) {
        MatchRulesMeaning(text, cache, dir, policy.id, m, p);
      }
    }
  }

  predicate HasNetOf(cache: PodCache, pn: PeerNet) {
    match pn.peer
    case AnyPeer => pn.net.AnyNet?
    case PodPeer(pod) => pod in cache && cache[pod].HasAddress? && pn.net == OneHost(cache[pod].ip)
    case SubnetPeer(subnet) => pn.net == subnet
  }

  lemma PeersHaveNets(cache: PodCache, m: Match, pn: PeerNet)
    requires pn in Peers(cache, m)
    ensures HasNetOf(cache, pn)
  {
    var pods, subnets := OrEmpty(m.pods), FlatMap(BlockSubnets(), OrEmpty(m.blocks));
    FlatMapMember(PodPeers(cache), pods, pn);
    FlatMapMember(SubnetPeers(), subnets, pn);
  }

  lemma CandidateOf(text: NetText, cache: PodCache, dir: MatchType, policies: seq<ContivPolicy>, r: Rule)
    returns (policy: ContivPolicy, m: Match, pn: PeerNet, port: Port)
    requires r in Candidates(text, cache, dir, policies)
    ensures policy in policies && Applies(policy, dir) && m in policy.matches && m.mtype == dir
    ensures pn in Peers(cache, m) && port in EffectivePorts(m.ports)
    ensures r == PermitRule(text, dir, policy.id, pn, port)
  {
    hide FlatMap, Peers, PermitRule;
    FlatMapMember(PolicyRules(text, cache, dir), policies, r);
    policy :| policy in policies && r in PolicyRules(text, cache, dir)(policy);
    FlatMapMember(MatchRules(text, cache, dir, policy.id), policy.matches, r);
    m :| m in policy.matches && r in MatchRules(text, cache, dir, policy.id)(m);
    FlatMapMember(PeerRules(text, dir, policy.id, m.ports), Peers(cache, m), r);
    pn :| pn in Peers(cache, m) && r in PeerRules(text, dir, policy.id, m.ports)(pn);
    FlatMapMember(PortRule(text, dir, policy.id, pn), EffectivePorts(m.ports), r);
    port :| port in EffectivePorts(m.ports) && r in PortRule(text, dir, policy.id, pn)(port);
  }

  lemma CandidateIn(text: NetText, cache: PodCache, dir: MatchType, policies: seq<ContivPolicy>,
                    policy: ContivPolicy, m: Match, pn: PeerNet, port: Port)
    requires policy in policies && Applies(policy, dir) && m in policy.matches && m.mtype == dir
    requires pn in Peers(cache, m) && port in EffectivePorts(m.ports)
    ensures PermitRule(text, dir, policy.id, pn, port) in Candidates(text, cache, dir, policies)
  {
    hide FlatMap, Peers, PermitRule;
    var r := PermitRule(text, dir, policy.id, pn, port);
    FlatMapMember(PortRule(text, dir, policy.id, pn), EffectivePorts(m.ports), r);
    assert r in PortRule(text, dir, policy.id, pn)(port);
    FlatMapMember(PeerRules(text, dir, policy.id, m.ports), Peers(cache, m), r);
    assert r in PeerRules(text, dir, policy.id, m.ports)(pn);
    FlatMapMember(MatchRules(text, cache, dir, policy.id), policy.matches, r);
    assert r in MatchRules(text, cache, dir, policy.id)(m);
    FlatMapMember(PolicyRules(text, cache, dir), policies, r);
    assert r in PolicyRules(text, cache, dir)(policy);
  }

  lemma CandidatesPermit(text: NetText, cache: PodCache, dir: MatchType, policies: seq<ContivPolicy>, r: Rule)
    requires r in Candidates(text, cache, dir, policies)
    ensures r.action == ActionPermit && forall proto :: r.id != NoneText(proto)
  {
    hide Candidates, Peers, PermitText, NoneText;
    var policy, m, pn, port := CandidateOf(text, cache, dir, policies, r);
    forall proto: Protocol ensures r.id != NoneText(proto) {
      PermitIsNotNone(text, policy.id, pn.peer, port, proto);
    }
  }

  // ----- Rules with the same ID -----

  ghost predicate NoSameIDs(rules: seq<Rule>) {
    forall i, j :: 0 <= i < j < |rules| ==> rules[i].id != rules[j].id
  }

  /** Appending rules invents none, keeps the ones that are there, and leaves no ID out; no ID
      occurs twice. */
  lemma {:induction false} AppendMembers(rules: seq<Rule>, more: seq<Rule>)
    requires NoSameIDs(rules)
    ensures NoSameIDs(Append(rules, more))
    ensures forall r :: r in Append(rules, more) ==> r in rules || r in more
    ensures forall r :: r in rules ==> r in Append(rules, more)
    ensures forall r :: r in more ==> HasID(Append(rules, more), r.id)
  {
    if more != [] {
      var init, last := more[..|more| - 1], more[|more| - 1];
      AppendMembers(rules, init);
      var done, all := Append(rules, init), Append(rules, more);
      assert more == init + [last];
      assert all == done || all == done + [last];
      if all == done + [last] {
        assert all[|done|].id == last.id;
      }
      forall r | r in init ensures HasID(all, r.id) {
        var i :| 0 <= i < |done| && done[i].id == r.id;
        assert all[i].id == r.id;
      }
    }
  }

  /** No rule is lost if rules with the same ID are the same rule. */
  lemma AppendLosesNone(more: seq<Rule>)
    requires IDsDistinct(more)
    ensures forall r :: r in Append([], more) <==> r in more
  {
    hide Append;
    AppendMembers([], more);
    var all := Append([], more);
    forall r | r in more ensures r in all {
      var i :| 0 <= i < |all| && all[i].id == r.id;
      assert all[i] in all;
    }
  }

  lemma DenyAllLast(permits: seq<Rule>)
    requires forall r, proto :: r in permits ==> r.id != NoneText(proto)
    ensures Append(permits, [DenyAll(TCP), DenyAll(UDP)]) == permits + [DenyAll(TCP), DenyAll(UDP)]
  {
    hide Append, NoneText;
    var tcp, udp := DenyAll(TCP), DenyAll(UDP);
    forall proto: Protocol ensures !HasID(permits, NoneText(proto)) {
      assert forall i :: 0 <= i < |permits| ==> permits[i] in permits;
    }
    NonesDiffer();
    AppendConcat(permits, [tcp], [udp]);
    AppendSingle(permits, tcp);
    AppendSingle(permits + [tcp], udp);
    assert !HasID(permits + [tcp], udp.id);
    assert [tcp] + [udp] == [tcp, udp] && permits + [tcp] + [udp] == permits + [tcp, udp];
  }

  /** The list consists of permit rules of the matches, each ID once, followed by either nothing or
      the deny-the-rest rule of each protocol.  No rule is missing if IDs tell the rules apart. */
  lemma IntendedShape(text: NetText, cache: PodCache, dir: MatchType, policies: seq<ContivPolicy>)
    ensures var permits, candidates := Kept(text, cache, dir, policies), Candidates(text, cache, dir, policies);
            && Intended(text, cache, dir, policies) == permits + DenyTheRest(dir, policies)
            && AllPermit(permits) && NoSameIDs(permits)
            && (forall r :: r in permits ==> r in candidates)
            && (IDsDistinct(candidates) ==> forall r :: r in permits <==> r in candidates)
  {
    hide Append, Candidates, NoneText, IDsDistinct;
    var permits, candidates := Kept(text, cache, dir, policies), Candidates(text, cache, dir, policies);
    AppendMembers([], candidates);
    forall r | r in permits ensures r.action == ActionPermit && forall proto :: r.id != NoneText(proto) {
      CandidatesPermit(text, cache, dir, policies, r);
    }
    if IDsDistinct(candidates) { AppendLosesNone(candidates); }
    DenyAllLast(permits);
    NothingAppended(permits);
    assert permits + [] == permits;
  }

  lemma CoverApplies(cache: PodCache, dir: MatchType, policy: ContivPolicy, p: Packet)
    requires PolicyCovers(cache, dir, policy, p)
    ensures Applies(policy, dir)
  {
  }

  lemma AllAllowedCovers(cache: PodCache, dir: MatchType, policies: seq<ContivPolicy>, p: Packet)
    requires AllAllowed(dir, policies)
    ensures SomePolicyCovers(cache, dir, policies, p)
  {
    var policy :| policy in policies && AllowsAll(dir, policy);
    var m :| m in policy.matches && MatchesAnything(dir, m);
    assert MatchCovers(cache, dir, m, p);
    assert PolicyCovers(cache, dir, policy, p);
  }

  /** What the list decides is what its permit rules and the deny-the-rest rules decide. */
  lemma IntendedDecides(text: NetText, cache: PodCache, dir: MatchType, policies: seq<ContivPolicy>, p: Packet)
    ensures Evaluate(Intended(text, cache, dir, policies), p) ==
            if AnyMatches(Kept(text, cache, dir, policies), p) then Allowed
            else if HasPolicy(dir, policies) && !AllAllowed(dir, policies) then Denied
            else Unmatched
  {
    hide Kept, Intended, Candidates, AllAllowed, HasPolicy;
    IntendedShape(text, cache, dir, policies);
    var denies := DenyTheRest(dir, policies);
    EvaluatePermitsThen(Kept(text, cache, dir, policies), denies, p);
    assert denies != [] ==> denies[1..] == [DenyAll(UDP)];
  }

  /** The policies allow what a permit rule of the list matches. */
  lemma KeptCovers(text: NetText, cache: PodCache, dir: MatchType, policies: seq<ContivPolicy>, p: Packet)
    ensures AnyMatches(Kept(text, cache, dir, policies), p) ==> SomePolicyCovers(cache, dir, policies, p)
    ensures IDsDistinct(Candidates(text, cache, dir, policies)) ==>
              (AnyMatches(Kept(text, cache, dir, policies), p) <==> SomePolicyCovers(cache, dir, policies, p))
  {
    hide Kept, Intended, Candidates, SomePolicyCovers, IDsDistinct, Matches;
    IntendedShape(text, cache, dir, policies);
    CandidatesMeaning(text, cache, dir, policies, p);
  }

  /** First-match evaluation of the list gives the documented verdict on a packet exactly if some
      permit rule that was kept matches it or no policy covers it. */
  lemma IntendedMeaningIff(text: NetText, cache: PodCache, dir: MatchType, policies: seq<ContivPolicy>, p: Packet)
    ensures Evaluate(Intended(text, cache, dir, policies), p) == Meaning(cache, dir, policies, p) <==>
            (AnyMatches(Kept(text, cache, dir, policies), p) <==> SomePolicyCovers(cache, dir, policies, p))
  {
    hide Kept, Intended, Evaluate, SomePolicyCovers, AllAllowed;
    IntendedDecides(text, cache, dir, policies, p);
    KeptCovers(text, cache, dir, policies, p);
    if AllAllowed(dir, policies) { AllAllowedCovers(cache, dir, policies, p); }
  }

  /** For every set of policies whose rules are told apart by their IDs, and every packet,
      first-match evaluation of the list gives exactly the documented meaning. */
  lemma IntendedMeaning(text: NetText, cache: PodCache, dir: MatchType, policies: seq<ContivPolicy>, p: Packet)
    requires IDsDistinct(Candidates(text, cache, dir, policies))
    ensures Evaluate(Intended(text, cache, dir, policies), p) == Meaning(cache, dir, policies, p)
  {
    hide *;
    KeptCovers(text, cache, dir, policies, p);
    IntendedMeaningIff(text, cache, dir, policies, p);
  }

  /** Rules that are lost to others with the same ID never make the list permit more. */
  lemma IntendedNeverMore(text: NetText, cache: PodCache, dir: MatchType, policies: seq<ContivPolicy>, p: Packet)
    ensures Evaluate(Intended(text, cache, dir, policies), p) == Allowed ==> Meaning(cache, dir, policies, p) == Allowed
    ensures Meaning(cache, dir, policies, p) == Denied ==> Evaluate(Intended(text, cache, dir, policies), p) == Denied
  {
    hide Kept, Intended, Evaluate, SomePolicyCovers, AllAllowed;
    IntendedDecides(text, cache, dir, policies, p);
    KeptCovers(text, cache, dir, policies, p);
    if AllAllowed(dir, policies) { AllAllowedCovers(cache, dir, policies, p); }
  }

  // ----- The generated list -----

  /** The IDs tell the rules of the policies apart. */
  predicate Told(text: NetText, cache: PodCache, dir: MatchType, policies: seq<ContivPolicy>) {
    IDsDistinct(Candidates(text, cache, dir, SeenPolicies(policies)))
  }

  /** The generated list means exactly the policies as they are seen: whole blocks have turned
      into the network of the last block of their match. */
  lemma GeneratedMeaning(text: NetText, cache: PodCache, dir: MatchType, policies: seq<ContivPolicy>, p: Packet)
    requires Told(text, cache, dir, policies)
    ensures Evaluate(Generated(text, cache, dir, policies), p) == Meaning(cache, dir, SeenPolicies(policies), p)
  {
    hide Intended, SeenPolicies, Meaning, Evaluate, IDsDistinct, Candidates;
    IntendedMeaning(text, cache, dir, SeenPolicies(policies), p);
  }
}
