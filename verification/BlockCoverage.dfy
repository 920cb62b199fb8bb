/** What the loop variable over the blocks of a match does to the meaning of policies
    (plugins/policy/configurator/configurator_impl.go). */
module BlockCoverage {
  import opened Base
  import opened Net
  import opened Rules
  import opened Policies
  import opened RuleIDs
  import opened Configurator
  import opened ConfiguratorMeaning

  /** Every whole block has the network of the last block. */
  predicate BlocksAgree(blocks: seq<IPBlock>) {
    forall k :: 0 <= k < |blocks| && Whole(blocks[k]) ==> blocks[k].network == blocks[|blocks| - 1].network
  }

  /** The subnets collected for a match are the blocks without their exceptions exactly if its
      whole blocks agree with the last one. */
  lemma SubnetsExactIff(blocks: seq<IPBlock>)
    ensures FlatMap(BlockSubnets(), SeenBlocks(blocks)) == FlatMap(BlockSubnets(), blocks) <==> BlocksAgree(blocks)
  {
    hide FlatMap, Whole, BlockSubnets;
    if blocks == [] {
      assert SeenBlocks(blocks) == blocks;
    } else {
      SubnetsPrefixIff(blocks, |blocks|);
      assert blocks[..|blocks|] == blocks && SeenBlocks(blocks)[..|blocks|] == SeenBlocks(blocks);
    }
  }

  lemma {:induction false} SubnetsPrefixIff(blocks: seq<IPBlock>, n: nat)
    requires blocks != [] && n <= |blocks|
    ensures |FlatMap(BlockSubnets(), SeenBlocks(blocks)[..n])| == |FlatMap(BlockSubnets(), blocks[..n])|
    ensures FlatMap(BlockSubnets(), SeenBlocks(blocks)[..n]) == FlatMap(BlockSubnets(), blocks[..n]) <==>
            forall k :: 0 <= k < n && Whole(blocks[k]) ==> blocks[k].network == blocks[|blocks| - 1].network
  {
    hide FlatMap, SeenBlocks, Seen, Whole, BlockSubnets;
    if n == 0 {
      FlatMapEmpty(BlockSubnets(), blocks[..n]);
      FlatMapEmpty(BlockSubnets(), SeenBlocks(blocks)[..n]);
    } else {
      SubnetsPrefixIff(blocks, n - 1);
      FlatMapSnoc(BlockSubnets(), blocks, n - 1);
      FlatMapSnoc(BlockSubnets(), SeenBlocks(blocks), n - 1);
      SeenAt(blocks, n - 1);
      SeenSubnets(blocks[|blocks| - 1], blocks[n - 1]);
      ConcatEqual(FlatMap(BlockSubnets(), SeenBlocks(blocks)[..n - 1]), BlockSubnets()(SeenBlocks(blocks)[n - 1]),
                  FlatMap(BlockSubnets(), blocks[..n - 1]), BlockSubnets()(blocks[n - 1]));
    }
  }

  lemma SeenSubnets(last: IPBlock, block: IPBlock)
    ensures |BlockSubnets()(Seen(last, block))| == |BlockSubnets()(block)|
    ensures BlockSubnets()(Seen(last, block)) == BlockSubnets()(block) <==> (Whole(block) ==> block.network == last.network)
  {
    if Whole(block) {
      assert BlockSubnets()(Seen(last, block)) == [last.network] && BlockSubnets()(block) == [block.network];
      assert [last.network][0] == last.network && [block.network][0] == block.network;
    }
  }

  lemma ConcatEqual<T>(a: seq<T>, b: seq<T>, c: seq<T>, d: seq<T>)
    requires |a| == |c| && |b| == |d|
    ensures a + b == c + d <==> a == c && b == d
  {
    if a + b == c + d {
      assert (a + b)[..|a|] == a && (c + d)[..|c|] == c;
      assert (a + b)[|a|..] == b && (c + d)[|c|..] == d;
    }
  }

  // ----- When blocks keep their coverage -----

  function SplitSubnets(): IPBlock -> seq<Prefix> {
    (block: IPBlock) => if Whole(block) then [] else Expand(block.network, block.except)
  }

  /** The subnets of the blocks that an exception splits. */
  function SplitPieces(blocks: seq<IPBlock>): seq<Prefix> {
    FlatMap(SplitSubnets(), blocks)
  }

  predicate SomeWhole(blocks: seq<IPBlock>) {
    exists block :: block in blocks && Whole(block)
  }

  /** The whole blocks lie in the last network and the split blocks, and the last network lies in
      the blocks; both by subtraction. */
  predicate CoverageKept(blocks: seq<IPBlock>) {
    SomeWhole(blocks) ==>
      var last := blocks[|blocks| - 1].network;
      && (forall block :: block in blocks && Whole(block) ==> Expand(block.network, [last] + SplitPieces(blocks)) == [])
      && Expand(last, FlatMap(BlockSubnets(), blocks)) == []
  }

  predicate PoliciesKept(policies: seq<ContivPolicy>) {
    forall policy, m :: policy in policies && m in policy.matches && m.blocks.Some? ==> CoverageKept(m.blocks.value)
  }

  /** Nothing is left of a network exactly if the exceptions cover it. */
  lemma NothingLeftIff(network: Prefix, excepts: seq<Prefix>)
    ensures Expand(network, excepts) == [] <==> forall a: Bits :: Contains(network, a) ==> Covers(excepts, a)
  {
    hide Expand;
    var left := Expand(network, excepts);
    if left != [] {
      ExpandMember(network, excepts, left[0].ip);
      assert Contains(left[0], left[0].ip);
      assert Covers(left, left[0].ip);
    } else {
      forall a: Bits ensures Contains(network, a) ==> Covers(excepts, a) {
        ExpandMember(network, excepts, a);
        CoversNone(a);
      }
    }
  }

  lemma WholeCovers(block: IPBlock, a: Bits)
    requires Whole(block)
    ensures BlockCovers(block, a) <==> Contains(block.network, a)
  {
    hide Expand, Contains;
    ExpandMember(block.network, block.except, a);
    CoversOne(block.network, a);
  }

  lemma SplitCover(blocks: seq<IPBlock>, a: Bits)
    ensures Covers(SplitPieces(blocks), a) <==> exists block :: block in blocks && !Whole(block) && BlockCovers(block, a)
  {
    hide Contains, Expand, FlatMap;
    CoversFlatMap(SplitSubnets(), blocks, a);
    CoversNone(a);
    forall block: IPBlock ensures Covers(SplitSubnets()(block), a) <==> !Whole(block) && BlockCovers(block, a) {
      ExpandMember(block.network, block.except, a);
    }
  }

  /** What the blocks cover, and what they cover as they are seen. */
  lemma DocumentedCoverage(blocks: seq<IPBlock>, a: Bits)
    ensures SomeBlockCovers(blocks, a) <==>
            (exists block :: block in blocks && Whole(block) && Contains(block.network, a)) || Covers(SplitPieces(blocks), a)
  {
    hide Contains, Whole, SplitPieces, BlockCovers;
    SplitCover(blocks, a);
    forall block | block in blocks && Whole(block) ensures BlockCovers(block, a) <==> Contains(block.network, a) {
      WholeCovers(block, a);
    }
  }

  lemma SeenCoverage(blocks: seq<IPBlock>, a: Bits)
    requires blocks != []
    ensures SomeBlockCovers(SeenBlocks(blocks), a) <==>
            (SomeWhole(blocks) && Contains(blocks[|blocks| - 1].network, a)) || Covers(SplitPieces(blocks), a)
  {
    hide Contains, Whole, SplitPieces;
    var seen, last := SeenBlocks(blocks), blocks[|blocks| - 1];
    SplitCover(blocks, a);
    CoversNone(a);
    forall k | 0 <= k < |blocks|
      ensures BlockCovers(seen[k], a) <==> if Whole(blocks[k]) then Contains(last.network, a) else BlockCovers(blocks[k], a)
    {
      SeenAt(blocks, k);
    }
    hide BlockCovers, SeenBlocks;
    if block :| block in seen && BlockCovers(block, a) {
      var k :| 0 <= k < |seen| && seen[k] == block;
      assert blocks[k] in blocks;
    }
    if block :| block in blocks && Whole(block) && Contains(last.network, a) {
      var k :| 0 <= k < |blocks| && blocks[k] == block;
      assert seen[k] in seen;
    }
    if block :| block in blocks && !Whole(block) && BlockCovers(block, a) {
      var k :| 0 <= k < |blocks| && blocks[k] == block;
      assert seen[k] in seen;
    }
  }

  ghost predicate SameCoverage(blocks: seq<IPBlock>) {
    forall a: Bits :: SomeBlockCovers(SeenBlocks(blocks), a) <==> SomeBlockCovers(blocks, a)
  }

  /** The blocks of a match cover the same addresses as they are seen if and only if the whole
      ones lie in the last network and the split blocks, and the last network in all of them. */
  lemma CoverageExactIff(blocks: seq<IPBlock>)
    ensures SameCoverage(blocks) <==> CoverageKept(blocks)
  {
    hide Contains, Whole, SplitPieces, Expand, SomeBlockCovers;
    if blocks == [] {
      assert SeenBlocks(blocks) == blocks;
    } else {
      var last := blocks[|blocks| - 1].network;
      forall a: Bits
        ensures SomeBlockCovers(blocks, a) <==>
                (exists block :: block in blocks && Whole(block) && Contains(block.network, a)) || Covers(SplitPieces(blocks), a)
        ensures SomeBlockCovers(SeenBlocks(blocks), a) <==> (SomeWhole(blocks) && Contains(last, a)) || Covers(SplitPieces(blocks), a)
        ensures Covers(FlatMap(BlockSubnets(), blocks), a) <==> SomeBlockCovers(blocks, a)
        ensures Covers([last] + SplitPieces(blocks), a) <==> Contains(last, a) || Covers(SplitPieces(blocks), a)
      {
        DocumentedCoverage(blocks, a);
        SeenCoverage(blocks, a);
        BlocksCover(blocks, a);
        CoversAppend([last], SplitPieces(blocks), a);
        CoversOne(last, a);
      }
      NothingLeftIff(last, FlatMap(BlockSubnets(), blocks));
      forall block | block in blocks
        ensures Expand(block.network, [last] + SplitPieces(blocks)) == [] <==>
                forall a: Bits :: Contains(block.network, a) ==> Covers([last] + SplitPieces(blocks), a)
      {
        NothingLeftIff(block.network, [last] + SplitPieces(blocks));
      }
    }
  }

  lemma KeptMatch(cache: PodCache, m: Match, a: Bits)
    requires m.blocks.Some? ==> CoverageKept(m.blocks.value)
    ensures CoversPeer(cache, SeenMatch(m), a) <==> CoversPeer(cache, m, a)
  {
    hide CoverageKept, SomeBlockCovers, SeenBlocks;
    if m.blocks.Some? {
      CoverageExactIff(m.blocks.value);
    }
  }

  lemma KeptPolicy(cache: PodCache, dir: MatchType, policy: ContivPolicy, p: Packet)
    requires forall m :: m in policy.matches && m.blocks.Some? ==> CoverageKept(m.blocks.value)
    ensures PolicyCovers(cache, dir, SeenPolicy(policy), p) <==> PolicyCovers(cache, dir, policy, p)
  {
    hide CoversPeer, CoversPort, CoverageKept, SeenBlocks;
    var xs, ys := SeenPolicy(policy).matches, policy.matches;
    forall k | 0 <= k < |ys| ensures MatchCovers(cache, dir, xs[k], p) <==> MatchCovers(cache, dir, ys[k], p) {
      assert ys[k] in ys;
      KeptMatch(cache, ys[k], PeerAddress(dir, p));
      SeenPorts(ys[k], p);
    }
    hide MatchCovers;
    if m :| m in xs && MatchCovers(cache, dir, m, p) {
      var k :| 0 <= k < |xs| && xs[k] == m;
      assert ys[k] in ys;
    }
    if m :| m in ys && MatchCovers(cache, dir, m, p) {
      var k :| 0 <= k < |ys| && ys[k] == m;
      assert xs[k] in xs;
    }
  }

  lemma SeenPorts(m: Match, p: Packet)
    ensures CoversPort(SeenMatch(m), p) <==> CoversPort(m, p)
  {
  }

  /** Policies whose blocks keep their coverage get the documented meaning if IDs tell their rules
      apart. */
  lemma KeptMeaning(text: NetText, cache: PodCache, dir: MatchType, policies: seq<ContivPolicy>, p: Packet)
    requires PoliciesKept(policies) && Told(text, cache, dir, policies)
    ensures Evaluate(Generated(text, cache, dir, policies), p) == Meaning(cache, dir, policies, p)
  {
    hide *;
    GeneratedMeaning(text, cache, dir, policies, p);
    KeptSeen(cache, dir, policies, p);
  }

  lemma KeptSeen(cache: PodCache, dir: MatchType, policies: seq<ContivPolicy>, p: Packet)
    requires PoliciesKept(policies)
    ensures Meaning(cache, dir, SeenPolicies(policies), p) == Meaning(cache, dir, policies, p)
  {
    hide PolicyCovers, SeenPolicy, CoverageKept;
    var xs, ys := SeenPolicies(policies), policies;
    forall k | 0 <= k < |ys|
      ensures PolicyCovers(cache, dir, xs[k], p) <==> PolicyCovers(cache, dir, ys[k], p)
      ensures Applies(xs[k], dir) <==> Applies(ys[k], dir)
    {
      assert ys[k] in ys;
      KeptPolicy(cache, dir, ys[k], p);
      SeenType(ys[k]);
    }
    SomeAgree(cache, dir, xs, ys, p);
  }

  lemma SeenType(policy: ContivPolicy)
    ensures SeenPolicy(policy).ptype == policy.ptype
  {
  }

  lemma SomeAgree(cache: PodCache, dir: MatchType, xs: seq<ContivPolicy>, ys: seq<ContivPolicy>, p: Packet)
    requires |xs| == |ys| && forall k :: 0 <= k < |xs| ==>
               && (PolicyCovers(cache, dir, xs[k], p) <==> PolicyCovers(cache, dir, ys[k], p))
               && (Applies(xs[k], dir) <==> Applies(ys[k], dir))
    ensures Meaning(cache, dir, xs, p) == Meaning(cache, dir, ys, p)
  {
    hide PolicyCovers, Applies;
    forall x | x in xs
      ensures exists y :: y in ys && (PolicyCovers(cache, dir, x, p) <==> PolicyCovers(cache, dir, y, p)) &&
                          (Applies(x, dir) <==> Applies(y, dir))
    {
      var k :| 0 <= k < |xs| && xs[k] == x;
      assert ys[k] in ys;
    }
    forall y | y in ys
      ensures exists x :: x in xs && (PolicyCovers(cache, dir, x, p) <==> PolicyCovers(cache, dir, y, p)) &&
                          (Applies(x, dir) <==> Applies(y, dir))
    {
      var k :| 0 <= k < |ys| && ys[k] == y;
      assert xs[k] in xs;
    }
  }

  // ----- A policy with one match -----

  function OneMatch(id: PolicyID, ptype: PolicyType, dir: MatchType, blocks: seq<IPBlock>, ports: seq<Port>): ContivPolicy {
    ContivPolicy(id, ptype, [Match(dir, None, Some(blocks), ports)])
  }

  lemma OneMatchMeaning(cache: PodCache, id: PolicyID, ptype: PolicyType, dir: MatchType, blocks: seq<IPBlock>, ports: seq<Port>, p: Packet)
    requires Applies(OneMatch(id, ptype, dir, blocks, ports), dir)
    ensures Meaning(cache, dir, [OneMatch(id, ptype, dir, blocks, ports)], p) ==
            if SomeBlockCovers(blocks, PeerAddress(dir, p)) && (ports == [] || SomePortMatches(ports, p)) then Allowed else Denied
  {
    hide SomeBlockCovers, SomePortMatches, PeerAddress;
    var policy := OneMatch(id, ptype, dir, blocks, ports);
    var m := policy.matches[0];
    assert m in policy.matches && policy in [policy];
    assert PolicyCovers(cache, dir, policy, p) <==> MatchCovers(cache, dir, m, p);
  }

  lemma OneMatchSeen(id: PolicyID, ptype: PolicyType, dir: MatchType, blocks: seq<IPBlock>, ports: seq<Port>)
    ensures SeenPolicies([OneMatch(id, ptype, dir, blocks, ports)]) == [OneMatch(id, ptype, dir, SeenBlocks(blocks), ports)]
  {
    hide SeenBlocks;
    var m := OneMatch(id, ptype, dir, blocks, ports).matches[0];
    assert SeenPolicy(OneMatch(id, ptype, dir, blocks, ports)).matches == [SeenMatch(m)];
  }

  /** The IDs of the rules of one match of blocks differ in their networks or ports. */
  lemma OneMatchTold(text: NetText, cache: PodCache, id: PolicyID, ptype: PolicyType, dir: MatchType, blocks: seq<IPBlock>, ports: seq<Port>)
    ensures Told(text, cache, dir, [OneMatch(id, ptype, dir, blocks, ports)])
  {
    hide Candidates, SeenBlocks, Peers, PermitText, SeenPolicies;
    OneMatchSeen(id, ptype, dir, blocks, ports);
    var policies := [OneMatch(id, ptype, dir, SeenBlocks(blocks), ports)];
    var all := Candidates(text, cache, dir, policies);
    forall x, y | x in all && y in all && x.id == y.id ensures x == y {
      var p1, m1, pn1, port1 := CandidateOf(text, cache, dir, policies, x);
      var p2, m2, pn2, port2 := CandidateOf(text, cache, dir, policies, y);
      BlockPeer(cache, m1, pn1);
      BlockPeer(cache, m2, pn2);
      SubnetTextTells(text, id, pn1.peer.subnet, port1, pn2.peer.subnet, port2);
    }
  }

  lemma BlockPeer(cache: PodCache, m: Match, pn: PeerNet)
    requires pn in Peers(cache, m) && m.pods.None? && m.blocks.Some?
    ensures pn.peer.SubnetPeer? && pn.net == pn.peer.subnet
  {
    FlatMapMember(PodPeers(cache), OrEmpty(m.pods), pn);
    FlatMapMember(SubnetPeers(), FlatMap(BlockSubnets(), OrEmpty(m.blocks)), pn);
  }

  lemma SubnetTextTells(text: NetText, id: PolicyID, m: Prefix, port: Port, n: Prefix, port': Port)
    requires PermitText(text, id, SubnetPeer(m), port) == PermitText(text, id, SubnetPeer(n), port')
    ensures m == n && port == port'
  {
    hide PermitText;
    PermitTextPort(text, id, SubnetPeer(m), port, id, SubnetPeer(n), port');
    var x := id.namespace + "/" + id.name;
    assert (x + ("-" + text(m)))[|x| + 1..] == text(m) && (x + ("-" + text(n)))[|x| + 1..] == text(n);
  }

  /** A packet that the ports of a match cover, from or to any address. */
  function PacketFor(dir: MatchType, ports: seq<Port>, a: Bits): (p: Packet)
    ensures PeerAddress(dir, p) == a && (ports == [] || SomePortMatches(ports, p))
  {
    var port := if ports == [] then Port(TCP, 0) else ports[0];
    assert ports != [] ==> port in ports;
    Packet(a, a, port.proto, 0, port.number)
  }

  /** The list generated for a policy with one match means the documentation, for every packet, if
      and only if its blocks keep their coverage. */
  lemma OneMatchExactIff(text: NetText, cache: PodCache, id: PolicyID, ptype: PolicyType, dir: MatchType, blocks: seq<IPBlock>, ports: seq<Port>)
    requires Applies(OneMatch(id, ptype, dir, blocks, ports), dir)
    ensures (forall p: Packet :: Evaluate(Generated(text, cache, dir, [OneMatch(id, ptype, dir, blocks, ports)]), p) ==
                                 Meaning(cache, dir, [OneMatch(id, ptype, dir, blocks, ports)], p))
            <==> CoverageKept(blocks)
  {
    hide Evaluate, Generated, Meaning, Told, CoverageKept, SomeBlockCovers, SeenBlocks, SomePortMatches, PacketFor, PeerAddress;
    var policy := OneMatch(id, ptype, dir, blocks, ports);
    CoverageExactIff(blocks);
    OneMatchSeen(id, ptype, dir, blocks, ports);
    forall p: Packet
      ensures Evaluate(Generated(text, cache, dir, [policy]), p) == Meaning(cache, dir, [policy], p) <==>
              ((ports == [] || SomePortMatches(ports, p)) ==>
                 (SomeBlockCovers(SeenBlocks(blocks), PeerAddress(dir, p)) <==> SomeBlockCovers(blocks, PeerAddress(dir, p))))
    {
      OneMatchTold(text, cache, id, ptype, dir, blocks, ports);
      GeneratedMeaning(text, cache, dir, [policy], p);
      OneMatchMeaning(cache, id, ptype, dir, blocks, ports, p);
      OneMatchMeaning(cache, id, ptype, dir, SeenBlocks(blocks), ports, p);
    }
    if !SameCoverage(blocks) {
      var a: Bits :| !(SomeBlockCovers(SeenBlocks(blocks), a) <==> SomeBlockCovers(blocks, a));
      var p := PacketFor(dir, ports, a);
      assert Evaluate(Generated(text, cache, dir, [policy]), p) != Meaning(cache, dir, [policy], p);
    }
  }

  /** What only a whole block before the last one allows is denied ... */
  lemma WholeBlockLost(text: NetText, cache: PodCache, id: PolicyID, block: IPBlock, last: IPBlock, p: Packet)
    requires Whole(block) && Contains(block.network, p.src) && !Contains(last.network, p.src)
    ensures Meaning(cache, MatchIngress, [OneMatch(id, PolicyIngress, MatchIngress, [block, last], [])], p) == Allowed
    ensures Evaluate(Generated(text, cache, MatchIngress, [OneMatch(id, PolicyIngress, MatchIngress, [block, last], [])]), p) == Denied
  {
    hide *;
    var blocks := [block, last];
    assert blocks[0] == block && blocks[1] == last;
    WholeCovers(block, p.src);
    CoveredInside(last, p.src);
    SeenCoverage(blocks, p.src);
    SplitCover(blocks, p.src);
    TwoBlocks(text, cache, id, block, last, p);
  }

  /** ... and the exceptions of the last block no longer hold. */
  lemma ExceptionLost(text: NetText, cache: PodCache, id: PolicyID, block: IPBlock, last: IPBlock, p: Packet)
    requires Whole(block) && !Contains(block.network, p.src) && Contains(last.network, p.src) && Covers(last.except, p.src)
    ensures Meaning(cache, MatchIngress, [OneMatch(id, PolicyIngress, MatchIngress, [block, last], [])], p) == Denied
    ensures Evaluate(Generated(text, cache, MatchIngress, [OneMatch(id, PolicyIngress, MatchIngress, [block, last], [])]), p) == Allowed
  {
    var blocks := [block, last];
    assert block in blocks && Whole(block);
    SeenCoverage(blocks, p.src);
    TwoBlocks(text, cache, id, block, last, p);
  }

  lemma CoveredInside(block: IPBlock, a: Bits)
    ensures BlockCovers(block, a) ==> Contains(block.network, a)
  {
    hide Contains;
  }

  lemma TwoBlocks(text: NetText, cache: PodCache, id: PolicyID, block: IPBlock, last: IPBlock, p: Packet)
    ensures Meaning(cache, MatchIngress, [OneMatch(id, PolicyIngress, MatchIngress, [block, last], [])], p) ==
            if BlockCovers(block, p.src) || BlockCovers(last, p.src) then Allowed else Denied
    ensures Evaluate(Generated(text, cache, MatchIngress, [OneMatch(id, PolicyIngress, MatchIngress, [block, last], [])]), p) ==
            if SomeBlockCovers(SeenBlocks([block, last]), p.src) then Allowed else Denied
  {
    hide Evaluate, Generated, Meaning, Told, BlockCovers, SeenBlocks;
    var blocks := [block, last];
    assert block in blocks && last in blocks;
    OneMatchMeaning(cache, id, PolicyIngress, MatchIngress, blocks, [], p);
    OneMatchMeaning(cache, id, PolicyIngress, MatchIngress, SeenBlocks(blocks), [], p);
    OneMatchSeen(id, PolicyIngress, MatchIngress, blocks, []);
    OneMatchTold(text, cache, id, PolicyIngress, MatchIngress, blocks, []);
    GeneratedMeaning(text, cache, MatchIngress, [OneMatch(id, PolicyIngress, MatchIngress, blocks, [])], p);
  }
}
