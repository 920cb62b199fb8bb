/** The policy compiler (plugins/policy/configurator/configurator_impl.go): generateRules
    turns a set of policies into an ordered rule list. */
module Configurator {
  import opened Base
  import opened Net
  import opened Rules
  import opened Policies
  import opened RuleIDs

  datatype PeerNet = PeerNet(peer: Peer, net: Network)

  function OrEmpty<T>(o: Option<seq<T>>): seq<T> {
    if o.Some? then o.value else []
  }

  // ----- Specification -----

  function PermitRule(text: NetText, dir: MatchType, policy: PolicyID, pn: PeerNet, port: Port): Rule {
    ContivRule(
      PermitText(text, policy, pn.peer, port), ActionPermit,
      if dir == MatchIngress then pn.net else AnyNet,
      if dir == MatchIngress then AnyNet else pn.net,
      port.proto, 0, port.number)
  }

  /** No ports at all means every port of both protocols. */
  function EffectivePorts(ports: seq<Port>): seq<Port> {
    if ports == [] then [Port(TCP, 0), Port(UDP, 0)] else ports
  }

  function PortRule(text: NetText, dir: MatchType, policy: PolicyID, pn: PeerNet): Port -> seq<Rule> {
    port => [PermitRule(text, dir, policy, pn, port)]
  }

  function PeerRules(text: NetText, dir: MatchType, policy: PolicyID, ports: seq<Port>): PeerNet -> seq<Rule> {
    pn => FlatMap(PortRule(text, dir, policy, pn), EffectivePorts(ports))
  }

  /** Pods that are unknown, or have no usable address, are left out. */
  function PodPeers(cache: PodCache): PodID -> seq<PeerNet> {
    pod => if pod in cache && cache[pod].HasAddress? then [PeerNet(PodPeer(pod), OneHost(cache[pod].ip))] else []
  }

  function BlockSubnets(): IPBlock -> seq<Prefix> {
    (block: IPBlock) => Expand(block.network, block.except)
  }

  function SubnetPeers(): Prefix -> seq<PeerNet> {
    (subnet: Prefix) => [PeerNet(SubnetPeer(subnet), subnet)]
  }

  function AnyPeers(m: Match): seq<PeerNet> {
    if m.pods.None? && m.blocks.None? then [PeerNet(AnyPeer, AnyNet)] else []
  }

  function Peers(cache: PodCache, m: Match): seq<PeerNet> {
    AnyPeers(m) +
    FlatMap(PodPeers(cache), OrEmpty(m.pods)) +
    FlatMap(SubnetPeers(), FlatMap(BlockSubnets(), OrEmpty(m.blocks)))
  }

  function MatchRules(text: NetText, cache: PodCache, dir: MatchType, policy: PolicyID): Match -> seq<Rule> {
    (m: Match) => if m.mtype != dir then [] else FlatMap(PeerRules(text, dir, policy, m.ports), Peers(cache, m))
  }

  function PolicyRules(text: NetText, cache: PodCache, dir: MatchType): ContivPolicy -> seq<Rule> {
    (policy: ContivPolicy) => if Applies(policy, dir) then FlatMap(MatchRules(text, cache, dir, policy.id), policy.matches) else []
  }

  /** All permit rules in the order in which they are offered to appendRules. */
  function Candidates(text: NetText, cache: PodCache, dir: MatchType, policies: seq<ContivPolicy>): seq<Rule> {
    FlatMap(PolicyRules(text, cache, dir), policies)
  }

  predicate HasPolicy(dir: MatchType, policies: seq<ContivPolicy>) {
    exists policy :: policy in policies && Applies(policy, dir)
  }

  predicate MatchesAnything(dir: MatchType, m: Match) {
    m.mtype == dir && m.pods.None? && m.blocks.None? && m.ports == []
  }

  predicate SomeMatchesAnything(dir: MatchType, matches: seq<Match>) {
    exists m :: m in matches && MatchesAnything(dir, m)
  }

  predicate AllowsAll(dir: MatchType, policy: ContivPolicy) {
    Applies(policy, dir) && SomeMatchesAnything(dir, policy.matches)
  }

  predicate AllAllowed(dir: MatchType, policies: seq<ContivPolicy>) {
    exists policy :: policy in policies && AllowsAll(dir, policy)
  }

  predicate HasID(rules: seq<Rule>, id: string) {
    exists i :: 0 <= i < |rules| && rules[i].id == id
  }

  function AppendOne(rules: seq<Rule>, r: Rule): seq<Rule> {
    if HasID(rules, r.id) then rules else rules + [r]
  }

  function Append(rules: seq<Rule>, more: seq<Rule>): seq<Rule> {
    if more == [] then rules
    else AppendOne(Append(rules, more[..|more| - 1]), more[|more| - 1])
  }

  function DenyAll(proto: Protocol): Rule {
    ContivRule(NoneText(proto), ActionDeny, AnyNet, AnyNet, proto, 0, 0)
  }

  function DenyTheRest(dir: MatchType, policies: seq<ContivPolicy>): seq<Rule> {
    if HasPolicy(dir, policies) && !AllAllowed(dir, policies) then [DenyAll(TCP), DenyAll(UDP)] else []
  }

  /** The permit rules that end up in the list: the first of those with the same ID. */
  function Kept(text: NetText, cache: PodCache, dir: MatchType, policies: seq<ContivPolicy>): seq<Rule> {
    Append([], Candidates(text, cache, dir, policies))
  }

  function Intended(text: NetText, cache: PodCache, dir: MatchType, policies: seq<ContivPolicy>): seq<Rule> {
    Append(Kept(text, cache, dir, policies), DenyTheRest(dir, policies))
  }

  // ----- What the loop variable over the blocks does -----

  /** No exception of the block touches its network.  Its only subnet is then a pointer into the
      variable of the loop over the blocks, which holds the last block when rules are made. */
  predicate Whole(block: IPBlock) {
    Expand(block.network, block.except) == [block.network]
  }

  function Seen(last: IPBlock, block: IPBlock): IPBlock {
    if Whole(block) then IPBlock(last.network, []) else block
  }

  function SeenBlocks(blocks: seq<IPBlock>): (s: seq<IPBlock>)
    ensures |s| == |blocks|
  {
    seq(|blocks|, k requires 0 <= k < |blocks| => Seen(blocks[|blocks| - 1], blocks[k]))
  }

  function SeenMatch(m: Match): Match {
    if m.blocks.Some? then m.(blocks := Some(SeenBlocks(m.blocks.value))) else m
  }

  function SeenPolicy(policy: ContivPolicy): ContivPolicy {
    policy.(matches := seq(|policy.matches|, k requires 0 <= k < |policy.matches| => SeenMatch(policy.matches[k])))
  }

  /** The policies as generateRules sees them. */
  function SeenPolicies(policies: seq<ContivPolicy>): (s: seq<ContivPolicy>)
    ensures |s| == |policies|
  {
    seq(|policies|, k requires 0 <= k < |policies| => SeenPolicy(policies[k]))
  }

  function Generated(text: NetText, cache: PodCache, dir: MatchType, policies: seq<ContivPolicy>): seq<Rule> {
    Intended(text, cache, dir, SeenPolicies(policies))
  }

  // ----- Implementation -----

  lemma {:induction false} AppendConcat(rules: seq<Rule>, a: seq<Rule>, b: seq<Rule>)
    ensures Append(rules, a + b) == Append(Append(rules, a), b)
  {
    hide AppendOne;
    if b == [] {
      assert a + b == a;
    } else {
      var init := b[..|b| - 1];
      AppendConcat(rules, a, init);
      assert (a + b)[..|a + b| - 1] == a + init;
      assert (a + b)[|a + b| - 1] == b[|b| - 1];
    }
  }

  lemma AppendStep<A>(rules: seq<Rule>, f: A -> seq<Rule>, s: seq<A>, i: nat)
    requires i < |s|
    ensures Append(rules, FlatMap(f, s[..i + 1])) == Append(Append(rules, FlatMap(f, s[..i])), f(s[i]))
  {
    hide Append;
    FlatMapSnoc(f, s, i);
    AppendConcat(rules, FlatMap(f, s[..i]), f(s[i]));
  }

  lemma AppendSingle(rules: seq<Rule>, r: Rule)
    ensures Append(rules, [r]) == AppendOne(rules, r)
  {
    hide AppendOne;
    assert [r][..0] == [];
  }

  /** appendRule: scans the list for the ID before appending. */
  method AppendRule(rules: seq<Rule>, newRule: Rule) returns (result: seq<Rule>)
    ensures result == Append(rules, [newRule])
  {
    AppendSingle(rules, newRule);
    for i := 0 to |rules|
      invariant !HasID(rules[..i], newRule.id)
    {
      if rules[i].id == newRule.id {
        return rules;
      }
    }
    assert rules[..|rules|] == rules;
    result := rules + [newRule];
  }

  /** Combines one peer with the ports of a match. */
  method AppendPeerRules(text: NetText, rules: seq<Rule>, dir: MatchType, policy: PolicyID, pn: PeerNet, ports: seq<Port>)
    returns (result: seq<Rule>)
    ensures result == Append(rules, PeerRules(text, dir, policy, ports)(pn))
  {
    hide Append;
    result := rules;
    var f := PortRule(text, dir, policy, pn);
    if |ports| == 0 {
      var tcpAny := PermitRule(text, dir, policy, pn, Port(TCP, 0));
      var udpAny := PermitRule(text, dir, policy, pn, Port(UDP, 0));
      result := AppendRule(result, tcpAny);
      result := AppendRule(result, udpAny);
      AppendConcat(rules, [tcpAny], [udpAny]);
      ghost var both := EffectivePorts(ports);
      assert both[..1][..0] == [] && both[..1] == [Port(TCP, 0)];
      assert FlatMap(f, both[..1]) == [tcpAny];
    } else {
      assert FlatMap(f, ports[..0]) == [];
      NothingAppended(rules);
      for i := 0 to |ports|
        invariant result == Append(rules, FlatMap(f, ports[..i]))
      {
        AppendStep(rules, f, ports, i);
        result := AppendRule(result, PermitRule(text, dir, policy, pn, ports[i]));
      }
      assert ports[..|ports|] == ports;
    }
  }

  lemma NothingAppended(rules: seq<Rule>)
    ensures Append(rules, []) == rules
  {
  }

  method AppendPeersRules(text: NetText, rules: seq<Rule>, dir: MatchType, policy: PolicyID, peers: seq<PeerNet>, ports: seq<Port>)
    returns (result: seq<Rule>)
    ensures result == Append(rules, FlatMap(PeerRules(text, dir, policy, ports), peers))
  {
    hide Append, PeerRules;
    var f := PeerRules(text, dir, policy, ports);
    result := rules;
    assert FlatMap(f, peers[..0]) == [];
    NothingAppended(rules);
    for i := 0 to |peers|
      invariant result == Append(rules, FlatMap(f, peers[..i]))
    {
      AppendStep(rules, f, peers, i);
      result := AppendPeerRules(text, result, dir, policy, peers[i], ports);
    }
    assert peers[..|peers|] == peers;
  }

  method CollectPodPeers(cache: PodCache, pods: seq<PodID>) returns (peers: seq<PeerNet>)
    ensures peers == FlatMap(PodPeers(cache), pods)
  {
    peers := [];
    for i := 0 to |pods|
      invariant peers == FlatMap(PodPeers(cache), pods[..i])
    {
      FlatMapSnoc(PodPeers(cache), pods, i);
      if pods[i] !in cache { continue; }
      var data := cache[pods[i]];
      if data == NoAddress { continue; }
      if data == BadAddress { continue; }
      peers := peers + [PeerNet(PodPeer(pods[i]), OneHost(data.ip))];
    }
    assert pods[..|pods|] == pods;
  }

  /** A pointer to a subnet: into the variable of the loop over the blocks, or to a new one. */
  datatype SubnetRef = LoopVariable | New(net: Prefix)

  function Deref(ref: SubnetRef, block: IPBlock): Prefix {
    if ref == LoopVariable then block.network else ref.net
  }

  function News(nets: seq<Prefix>): seq<SubnetRef> {
    seq(|nets|, k requires 0 <= k < |nets| => New(nets[k]))
  }

  /** What the subnets of a block point to. */
  function Refs(network: Prefix, nets: seq<Prefix>): seq<SubnetRef> {
    if nets == [network] then [LoopVariable] else News(nets)
  }

  lemma RefsRound(network: Prefix, excepts: seq<Prefix>, except: Prefix, subtracted: seq<SubnetRef>)
    requires var nets := Expand(network, excepts);
             subtracted == if nets == [network] then Refs(network, SubtractFromAll(nets, except))
                           else News(SubtractFromAll(nets, except))
    ensures subtracted == Refs(network, SubtractFromAll(Expand(network, excepts), except))
  {
    var nets := Expand(network, excepts);
    if nets != [network] {
      ExpandWhole(network, excepts);
      ExpandPieces(network, excepts);
      SubtractPieces(nets, except, |network.ip|, network.plen + 1);
      var rest := SubtractFromAll(nets, except);
      assert rest == [network] ==> network in rest;
    }
  }

  /** subtractSubnet returns the pointer it was given if nothing is cut off. */
  method SubtractRef(ref: SubnetRef, block: IPBlock, except: Prefix) returns (refs: seq<SubnetRef>)
    ensures refs == if ref == LoopVariable then Refs(block.network, SubtractFromAll([block.network], except))
                    else News(SubtractFromAll([ref.net], except))
  {
    hide Subtraction;
    var net := Deref(ref, block);
    SubtractionCanonical(net, except);
    SubtractFromOne(net, except);
    var parts: seq<Prefix> := SubtractSubnet(net, except);
    refs := if parts == [net] then [ref] else News(parts);
  }

  lemma SubtractSnoc(nets: seq<Prefix>, k: nat, except: Prefix)
    requires k < |nets|
    ensures SubtractFromAll(nets[..k + 1], except) == SubtractFromAll(nets[..k], except) + SubtractFromAll([nets[k]], except)
  {
    hide Subtraction;
    assert nets[..k + 1][..k] == nets[..k];
    SubtractFromOne(nets[k], except);
  }

  lemma NewsConcat(a: seq<Prefix>, b: seq<Prefix>)
    ensures News(a + b) == News(a) + News(b)
  {
  }

  /** One round of the loop over the exceptions of a block. */
  method SubtractExcept(subnets: seq<SubnetRef>, block: IPBlock, except: Prefix, ghost excepts: seq<Prefix>)
    returns (subtracted: seq<SubnetRef>)
    requires subnets == Refs(block.network, Expand(block.network, excepts))
    ensures subtracted == Refs(block.network, SubtractFromAll(Expand(block.network, excepts), except))
  {
    hide SubtractFromAll, Expand, News;
    ghost var nets := Expand(block.network, excepts);
    assert |subnets| == |nets| by { RefsLength(block.network, nets); }
    subtracted := [];
    NothingSubtracted(except);
    for k := 0 to |subnets|
      invariant nets != [block.network] ==> subtracted == News(SubtractFromAll(nets[..k], except))
      invariant nets == [block.network] ==>
                  subtracted == if k == 0 then [] else Refs(block.network, SubtractFromAll(nets, except))
    {
      var parts := SubtractRef(subnets[k], block, except);
      if nets != [block.network] {
        NewAt(nets, k);
        SubtractSnoc(nets, k, except);
        NewsConcat(SubtractFromAll(nets[..k], except), SubtractFromAll([nets[k]], except));
      }
      subtracted := subtracted + parts;
    }
    assert nets[..|nets|] == nets;
    RefsRound(block.network, excepts, except, subtracted);
  }

  lemma RefsLength(network: Prefix, nets: seq<Prefix>)
    ensures |Refs(network, nets)| == |nets|
  {
  }

  lemma NothingSubtracted(except: Prefix)
    ensures forall nets: seq<Prefix> :: News(SubtractFromAll(nets[..0], except)) == []
  {
  }

  lemma NewAt(nets: seq<Prefix>, k: nat)
    requires k < |nets|
    ensures |News(nets)| == |nets| && News(nets)[k] == New(nets[k])
  {
  }

  method ExpandBlock(block: IPBlock) returns (subnets: seq<SubnetRef>)
    ensures subnets == Refs(block.network, Expand(block.network, block.except))
  {
    hide Refs, SubtractFromAll;
    subnets := [LoopVariable];
    WholeAtFirst(block.network);
    for i := 0 to |block.except|
      invariant subnets == Refs(block.network, Expand(block.network, block.except[..i]))
    {
      assert block.except[..i + 1][..i] == block.except[..i];
      subnets := SubtractExcept(subnets, block, block.except[i], block.except[..i]);
    }
    assert block.except[..|block.except|] == block.except;
  }

  lemma WholeAtFirst(network: Prefix)
    ensures Refs(network, Expand(network, [])) == [LoopVariable]
  {
  }

  function BlockRefs(): IPBlock -> seq<SubnetRef> {
    (block: IPBlock) => Refs(block.network, Expand(block.network, block.except))
  }

  function Resolve(refs: seq<SubnetRef>, last: IPBlock): seq<Prefix> {
    seq(|refs|, k requires 0 <= k < |refs| => Deref(refs[k], last))
  }

  lemma {:induction false} ResolveAll(blocks: seq<IPBlock>, last: IPBlock, n: nat)
    requires n <= |blocks| && blocks != [] && last == blocks[|blocks| - 1]
    ensures Resolve(FlatMap(BlockRefs(), blocks[..n]), last) == FlatMap(BlockSubnets(), SeenBlocks(blocks)[..n])
  {
    hide FlatMap, BlockRefs, BlockSubnets, SeenBlocks, Seen, Resolve;
    if n == 0 {
      assert Resolve([], last) == [] by { ResolveNothing(last); }
      FlatMapEmpty(BlockRefs(), blocks[..n]);
      FlatMapEmpty(BlockSubnets(), SeenBlocks(blocks)[..n]);
    } else {
      ResolveAll(blocks, last, n - 1);
      FlatMapSnoc(BlockRefs(), blocks, n - 1);
      FlatMapSnoc(BlockSubnets(), SeenBlocks(blocks), n - 1);
      ResolveOne(blocks[n - 1], last);
      SeenAt(blocks, n - 1);
      ResolveConcat(FlatMap(BlockRefs(), blocks[..n - 1]), BlockRefs()(blocks[n - 1]), last);
    }
  }

  lemma ResolveNothing(last: IPBlock)
    ensures Resolve([], last) == []
  {
  }

  lemma ResolveConcat(a: seq<SubnetRef>, b: seq<SubnetRef>, last: IPBlock)
    ensures Resolve(a + b, last) == Resolve(a, last) + Resolve(b, last)
  {
  }

  lemma SeenAt(blocks: seq<IPBlock>, k: nat)
    requires k < |blocks|
    ensures SeenBlocks(blocks)[k] == Seen(blocks[|blocks| - 1], blocks[k])
  {
  }

  lemma ResolveOne(block: IPBlock, last: IPBlock)
    ensures Resolve(BlockRefs()(block), last) == BlockSubnets()(Seen(last, block))
  {
  }

  /** The pointers are followed once all blocks were visited. */
  method CollectSubnets(blocks: seq<IPBlock>) returns (allSubnets: seq<Prefix>)
    ensures allSubnets == FlatMap(BlockSubnets(), SeenBlocks(blocks))
  {
    hide FlatMap;
    var refs: seq<SubnetRef> := [];
    FlatMapEmpty(BlockRefs(), blocks[..0]);
    for i := 0 to |blocks|
      invariant refs == FlatMap(BlockRefs(), blocks[..i])
    {
      FlatMapSnoc(BlockRefs(), blocks, i);
      var subnets := ExpandBlock(blocks[i]);
      refs := refs + subnets;
    }
    assert blocks[..|blocks|] == blocks;
    if blocks == [] {
      FlatMapEmpty(BlockSubnets(), SeenBlocks(blocks));
      return [];
    }
    ResolveAll(blocks, blocks[|blocks| - 1], |blocks|);
    assert SeenBlocks(blocks)[..|blocks|] == SeenBlocks(blocks);
    allSubnets := Resolve(refs, blocks[|blocks| - 1]);
  }

  method CollectSubnetPeers(subnets: seq<Prefix>) returns (peers: seq<PeerNet>)
    ensures peers == FlatMap(SubnetPeers(), subnets)
  {
    peers := [];
    for i := 0 to |subnets|
      invariant peers == FlatMap(SubnetPeers(), subnets[..i])
    {
      FlatMapSnoc(SubnetPeers(), subnets, i);
      peers := peers + [PeerNet(SubnetPeer(subnets[i]), subnets[i])];
    }
    assert subnets[..|subnets|] == subnets;
  }

  lemma AppendThree(text: NetText, rules: seq<Rule>, dir: MatchType, policy: PolicyID, ports: seq<Port>,
                    x: seq<PeerNet>, y: seq<PeerNet>, z: seq<PeerNet>)
    ensures var f := PeerRules(text, dir, policy, ports);
            Append(rules, FlatMap(f, x + y + z)) == Append(Append(Append(rules, FlatMap(f, x)), FlatMap(f, y)), FlatMap(f, z))
  {
    hide Append, PeerRules;
    var f := PeerRules(text, dir, policy, ports);
    FlatMapConcat(f, x, y);
    FlatMapConcat(f, x + y, z);
    AppendConcat(rules, FlatMap(f, x), FlatMap(f, y));
    AppendConcat(rules, FlatMap(f, x + y), FlatMap(f, z));
  }

  /** The body of the loop over the matches of a policy. */
  method AppendMatchRules(text: NetText, rules: seq<Rule>, cache: PodCache, dir: MatchType, policy: PolicyID, m: Match)
    returns (result: seq<Rule>, allAllowed: bool)
    requires m.mtype == dir
    ensures result == Append(rules, MatchRules(text, cache, dir, policy)(SeenMatch(m)))
    ensures allAllowed <==> MatchesAnything(dir, SeenMatch(m))
  {
    hide Append, PeerRules;
    var peers := CollectPodPeers(cache, OrEmpty(m.pods));
    var allSubnets := CollectSubnets(OrEmpty(m.blocks));
    result, allAllowed := rules, false;
    assert OrEmpty(SeenMatch(m).blocks) == SeenBlocks(OrEmpty(m.blocks));
    AppendThree(text, rules, dir, policy, m.ports, AnyPeers(m), peers, FlatMap(SubnetPeers(), allSubnets));
    NothingAppended(rules);
    if m.pods.None? && m.blocks.None? {
      result := AppendPeersRules(text, result, dir, policy, [PeerNet(AnyPeer, AnyNet)], m.ports);
      if |m.ports| == 0 {
        allAllowed := true;
      }
    }
    result := AppendPeersRules(text, result, dir, policy, peers, m.ports);
    var subnetPeers := CollectSubnetPeers(allSubnets);
    result := AppendPeersRules(text, result, dir, policy, subnetPeers, m.ports);
  }

  method AppendPolicyRules(text: NetText, rules: seq<Rule>, cache: PodCache, dir: MatchType, policy: ContivPolicy)
    returns (result: seq<Rule>, allAllowed: bool)
    requires Applies(policy, dir)
    ensures result == Append(rules, PolicyRules(text, cache, dir)(SeenPolicy(policy)))
    ensures allAllowed <==> SomeMatchesAnything(dir, SeenPolicy(policy).matches)
  {
    hide Append, MatchesAnything;
    var f := MatchRules(text, cache, dir, policy.id);
    ghost var seen := SeenPolicy(policy).matches;
    result, allAllowed := rules, false;
    assert FlatMap(f, seen[..0]) == [];
    NothingAppended(rules);
    for i := 0 to |policy.matches|
      invariant result == Append(rules, FlatMap(f, seen[..i]))
      invariant allAllowed <==> SomeMatchesAnything(dir, seen[..i])
    {
      var m := policy.matches[i];
      AppendStep(rules, f, seen, i);
      assert seen[..i + 1] == seen[..i] + [SeenMatch(m)];
      if m.mtype != dir {
        NothingAppended(result);
        WrongDirection(dir, SeenMatch(m));
        continue;
      }
      var all: bool;
      result, all := AppendMatchRules(text, result, cache, dir, policy.id, m);
      allAllowed := allAllowed || all;
    }
    assert seen[..|seen|] == seen;
  }

  lemma WrongDirection(dir: MatchType, m: Match)
    requires m.mtype != dir
    ensures !MatchesAnything(dir, m)
  {
  }

  /** generateRules */
  method GenerateRules(text: NetText, cache: PodCache, dir: MatchType, policies: seq<ContivPolicy>) returns (rules: seq<Rule>)
    ensures rules == Generated(text, cache, dir, policies)
  {
    hide Append, SomeMatchesAnything, FlatMap, SeenMatch;
    var f := PolicyRules(text, cache, dir);
    ghost var seen := SeenPolicies(policies);
    rules := [];
    var hasPolicy, allAllowed := false, false;
    assert FlatMap(f, seen[..0]) == [] by { FlatMapEmpty(f, seen[..0]); }
    NothingAppended([]);
    for i := 0 to |policies|
      invariant rules == Append([], FlatMap(f, seen[..i]))
      invariant hasPolicy <==> HasPolicy(dir, seen[..i])
      invariant allAllowed <==> AllAllowed(dir, seen[..i])
    {
      var policy := policies[i];
      AppendStep([], f, seen, i);
      assert seen[..i + 1] == seen[..i] + [SeenPolicy(policy)];
      if (policy.ptype == PolicyIngress && dir == MatchEgress) ||
         (policy.ptype == PolicyEgress && dir == MatchIngress) {
        NothingAppended(rules);
        assert !Applies(SeenPolicy(policy), dir);
        continue;
      }
      hasPolicy := true;
      var all: bool;
      rules, all := AppendPolicyRules(text, rules, cache, dir, policy);
      assert AllowsAll(dir, SeenPolicy(policy)) <==> all;
      allAllowed := allAllowed || all;
    }
    assert seen[..|seen|] == seen;
    NothingAppended(rules);
    if hasPolicy && !allAllowed {
      AppendConcat(rules, [DenyAll(TCP)], [DenyAll(UDP)]);
      assert [DenyAll(TCP)] + [DenyAll(UDP)] == DenyTheRest(dir, seen);
      rules := AppendRule(rules, DenyAll(TCP));
      rules := AppendRule(rules, DenyAll(UDP));
    }
  }
}
