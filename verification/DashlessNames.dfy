/** When the texts that identify rules tell them apart
    (plugins/policy/configurator/configurator_impl.go). */
module DashlessNames {
  import opened Base
  import opened Net
  import opened Rules
  import opened Policies
  import opened RuleIDs
  import opened Configurator
  import opened ConfiguratorMeaning

  /** Texts without a mark are told apart before the first mark. */
  lemma FirstMark(mark: char, x: string, a: string, y: string, b: string)
    requires x + [mark] + a == y + [mark] + b && mark !in x && mark !in y
    ensures x == y && a == b
  {
    var s, t := x + [mark] + a, y + [mark] + b;
    assert s[|x|] == mark && t[|y|] == mark;
    assert forall k :: 0 <= k < |x| ==> s[k] == x[k] != mark;
    assert forall k :: 0 <= k < |y| ==> t[k] == y[k] != mark;
    assert s[..|x|] == x && t[..|y|] == y && s[|x| + 1..] == a && t[|y| + 1..] == b;
  }

  /** Slashes do not occur in namespaces, and dashes not in the names of policies. */
  predicate PlainPolicyID(id: PolicyID) {
    '/' !in id.namespace && '-' !in id.name
  }

  /** A pod that is not printed like any network. */
  ghost predicate PlainPeer(text: NetText, peer: Peer) {
    peer.PodPeer? ==> '/' !in peer.pod.namespace && forall n: Prefix :: text(n) != peer.pod.namespace + "/" + peer.pod.name
  }

  function Suffix(rest: Option<string>): string { if rest.Some? then ['-'] + rest.value else [] }

  lemma DashTells(x: string, a: Option<string>, y: string, b: Option<string>)
    requires x + Suffix(a) == y + Suffix(b) && '-' !in x && '-' !in y
    ensures x == y && a == b
  {
    assert a.None? ==> x + Suffix(a) == x;
    assert b.None? ==> y + Suffix(b) == y;
    assert a.Some? ==> x + Suffix(a) == x + ['-'] + a.value && (x + ['-'] + a.value)[|x|] == '-';
    assert b.Some? ==> y + Suffix(b) == y + ['-'] + b.value && (y + ['-'] + b.value)[|y|] == '-';
    if a.Some? && b.Some? {
      FirstMark('-', x, a.value, y, b.value);
    }
  }

  function PeerRest(text: NetText, peer: Peer): Option<string> {
    match peer
    case AnyPeer => None
    case PodPeer(pod) => Some(pod.namespace + "/" + pod.name)
    case SubnetPeer(subnet) => Some(text(subnet))
  }

  lemma PeerTextIs(text: NetText, peer: Peer)
    ensures PeerText(text, peer) == Suffix(PeerRest(text, peer))
  {
    if peer.PodPeer? {
      assert "-" + peer.pod.namespace + "/" + peer.pod.name == ['-'] + (peer.pod.namespace + "/" + peer.pod.name);
    }
  }

  /** What follows the namespace and the slash. */
  lemma TailTells(text: NetText, name: string, peer: Peer, name': string, peer': Peer)
    requires '-' !in name && '-' !in name' && PlainPeer(text, peer) && PlainPeer(text, peer')
    requires name + PeerText(text, peer) == name' + PeerText(text, peer')
    ensures name == name' && peer == peer'
  {
    hide PeerText, Suffix, PlainPeer, PeerRest;
    PeerTextIs(text, peer);
    PeerTextIs(text, peer');
    DashTells(name, PeerRest(text, peer), name', PeerRest(text, peer'));
    RestTells(text, peer, peer');
  }

  lemma RestTells(text: NetText, peer: Peer, peer': Peer)
    requires PlainPeer(text, peer) && PlainPeer(text, peer')
    requires PeerRest(text, peer) == PeerRest(text, peer')
    ensures peer == peer'
  {
    if peer.PodPeer? && peer'.PodPeer? {
      FirstMark('/', peer.pod.namespace, peer.pod.name, peer'.pod.namespace, peer'.pod.name);
    }
  }

  /** Equal IDs are IDs of the same policy, peer and port. */
  lemma PermitTextTells(text: NetText, id: PolicyID, peer: Peer, port: Port, id': PolicyID, peer': Peer, port': Port)
    requires PlainPolicyID(id) && PlainPolicyID(id') && PlainPeer(text, peer) && PlainPeer(text, peer')
    requires PermitText(text, id, peer, port) == PermitText(text, id', peer', port')
    ensures id == id' && peer == peer' && port == port'
  {
    hide PermitText, PeerText, PortText, PlainPeer;
    PermitTextPort(text, id, peer, port, id', peer', port');
    var a, b := id.name + PeerText(text, peer), id'.name + PeerText(text, peer');
    assert id.namespace + "/" + id.name + PeerText(text, peer) == id.namespace + ['/'] + a;
    assert id'.namespace + "/" + id'.name + PeerText(text, peer') == id'.namespace + ['/'] + b;
    FirstMark('/', id.namespace, a, id'.namespace, b);
    TailTells(text, id.name, peer, id'.name, peer');
  }

  ghost predicate PlainPolicy(text: NetText, policy: ContivPolicy) {
    && PlainPolicyID(policy.id)
    && forall m, pod :: m in policy.matches && pod in OrEmpty(m.pods) ==> PlainPeer(text, PodPeer(pod))
  }

  lemma PeersArePlain(text: NetText, cache: PodCache, policy: ContivPolicy, m: Match, pn: PeerNet)
    requires PlainPolicy(text, policy) && m in policy.matches && pn in Peers(cache, m)
    ensures PlainPeer(text, pn.peer)
  {
    hide PlainPeer;
    var pods, subnets := OrEmpty(m.pods), FlatMap(BlockSubnets(), OrEmpty(m.blocks));
    FlatMapMember(PodPeers(cache), pods, pn);
    FlatMapMember(SubnetPeers(), subnets, pn);
    if pod :| pod in pods && pn in PodPeers(cache)(pod) {
      assert PlainPeer(text, PodPeer(pod));
    } else {
      NoPodIsPlain(text, pn.peer);
    }
  }

  lemma NoPodIsPlain(text: NetText, peer: Peer)
    requires !peer.PodPeer?
    ensures PlainPeer(text, peer)
  {
  }

  lemma DashlessDistinct(text: NetText, cache: PodCache, dir: MatchType, policies: seq<ContivPolicy>)
    requires forall policy :: policy in policies ==> PlainPolicy(text, policy)
    ensures IDsDistinct(Candidates(text, cache, dir, policies))
  {
    hide Candidates, PlainPolicy, PlainPeer, PlainPolicyID, Peers, PermitText, EffectivePorts;
    var candidates := Candidates(text, cache, dir, policies);
    forall x, y | x in candidates && y in candidates && x.id == y.id ensures x == y {
      var policy, m, pn, port := CandidateOf(text, cache, dir, policies, x);
      var policy', m', pn', port' := CandidateOf(text, cache, dir, policies, y);
      PeersArePlain(text, cache, policy, m, pn);
      PeersArePlain(text, cache, policy', m', pn');
      PeersHaveNets(cache, m, pn);
      PeersHaveNets(cache, m', pn');
      PlainIDs(text, policy);
      PlainIDs(text, policy');
      PermitTextTells(text, policy.id, pn.peer, port, policy'.id, pn'.peer, port');
    }
  }

  lemma SeenPlain(text: NetText, policy: ContivPolicy)
    requires PlainPolicy(text, policy)
    ensures PlainPolicy(text, SeenPolicy(policy))
  {
    hide PlainPeer, SeenBlocks;
    var seen := SeenPolicy(policy);
    forall m, pod | m in seen.matches && pod in OrEmpty(m.pods) ensures PlainPeer(text, PodPeer(pod)) {
      var k :| 0 <= k < |seen.matches| && seen.matches[k] == m;
      assert policy.matches[k] in policy.matches && m.pods == policy.matches[k].pods;
    }
  }

  /** The IDs tell the rules of policies apart whose names contain no dashes, whatever the names of
      the pods and the namespaces. */
  lemma DashlessTold(text: NetText, cache: PodCache, dir: MatchType, policies: seq<ContivPolicy>)
    requires forall policy :: policy in policies ==> PlainPolicy(text, policy)
    ensures Told(text, cache, dir, policies)
  {
    hide Candidates, PlainPolicy, SeenPolicy, IDsDistinct;
    var seen := SeenPolicies(policies);
    forall policy | policy in seen ensures PlainPolicy(text, policy) {
      var k :| 0 <= k < |seen| && seen[k] == policy;
      SeenPlain(text, policies[k]);
    }
    DashlessDistinct(text, cache, dir, seen);
  }

  lemma PlainIDs(text: NetText, policy: ContivPolicy)
    requires PlainPolicy(text, policy)
    ensures PlainPolicyID(policy.id)
  {
  }

  /** How the IDs end: the protocol and the port, which is ANY for port 0. */
  lemma IDsEnd(text: NetText, id: PolicyID, peer: Peer, number: uint16)
    ensures var start := id.namespace + "/" + id.name + Suffix(PeerRest(text, peer));
            && PermitText(text, id, peer, Port(TCP, 0)) == start + "-TCP:ANY"
            && PermitText(text, id, peer, Port(UDP, 0)) == start + "-UDP:ANY"
            && (number != 0 ==> PermitText(text, id, peer, Port(TCP, number)) == start + ("-TCP:" + Digits(number)))
            && (number != 0 ==> PermitText(text, id, peer, Port(UDP, number)) == start + ("-UDP:" + Digits(number)))
    ensures NoneText(TCP) == "TCP:NONE" && NoneText(UDP) == "UDP:NONE"
  {
    hide PeerText, Suffix, PeerRest, Digits;
    PeerTextIs(text, peer);
    var start := id.namespace + "/" + id.name + PeerText(text, peer);
    forall x: string, y: string ensures start + x + y == start + (x + y) {
      Joined(start, x, y);
    }
    assert "-" + ("TCP:" + "ANY") == "-TCP:ANY" && "-" + ("UDP:" + "ANY") == "-UDP:ANY";
    assert "-" + ("TCP" + ":" + Digits(number)) == "-TCP:" + Digits(number);
    assert "-" + ("UDP" + ":" + Digits(number)) == "-UDP:" + Digits(number);
  }

  lemma Joined(x: string, y: string, z: string)
    ensures x + y + z == x + (y + z)
  {
  }
}
