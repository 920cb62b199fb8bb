/** Contiv policies (plugins/policy/configurator/configurator_api.go) and what they are
    documented to mean. */
module Policies {
  import opened Base
  import opened Net
  import opened Rules

  datatype PolicyID = PolicyID(namespace: string, name: string)

  datatype PodID = PodID(namespace: string, name: string)

  datatype PolicyType = PolicyIngress | PolicyEgress | PolicyAll

  /** The direction is from the pod's point of view. */
  datatype MatchType = MatchIngress | MatchEgress

  /** Number 0 stands for all ports of the protocol. */
  datatype Port = Port(proto: Protocol, number: uint16)

  datatype IPBlock = IPBlock(network: Prefix, except: seq<Prefix>)

  /** None is the nil slice, which is not the same as the empty one: a match whose pods
      and blocks are both nil matches every peer. */
  datatype Match = Match(
    mtype: MatchType,
    pods: Option<seq<PodID>>,
    blocks: Option<seq<IPBlock>>,
    ports: seq<Port>)

  datatype ContivPolicy = ContivPolicy(id: PolicyID, ptype: PolicyType, matches: seq<Match>)

  /** The pod data behind LookupPod: the IpAddress string is empty, malformed or an address. */
  datatype PodAddress = NoAddress | BadAddress | HasAddress(ip: Address)

  type PodCache = map<PodID, PodAddress>

  // ----- Meaning -----

  predicate Applies(policy: ContivPolicy, dir: MatchType) {
    !(policy.ptype == PolicyIngress && dir == MatchEgress) &&
    !(policy.ptype == PolicyEgress && dir == MatchIngress)
  }

  function PeerAddress(dir: MatchType, p: Packet): Bits {
    if dir == MatchIngress then p.src else p.dest
  }

  predicate IsPodAddress(cache: PodCache, pod: PodID, a: Bits) {
    pod in cache && cache[pod].HasAddress? && cache[pod].ip == a
  }

  predicate SomePodHas(cache: PodCache, pods: seq<PodID>, a: Bits) {
    exists pod :: pod in pods && IsPodAddress(cache, pod, a)
  }

  predicate BlockCovers(block: IPBlock, a: Bits) {
    Contains(block.network, a) && !Covers(block.except, a)
  }

  predicate SomeBlockCovers(blocks: seq<IPBlock>, a: Bits) {
    exists block :: block in blocks && BlockCovers(block, a)
  }

  predicate CoversPeer(cache: PodCache, m: Match, a: Bits) {
    || (m.pods.None? && m.blocks.None?)
    || (m.pods.Some? && SomePodHas(cache, m.pods.value, a))
    || (m.blocks.Some? && SomeBlockCovers(m.blocks.value, a))
  }

  predicate SomePortMatches(ports: seq<Port>, p: Packet) {
    exists port :: port in ports && port.proto == p.proto && MatchesPort(port.number, p.destPort)
  }

  predicate CoversPort(m: Match, p: Packet) {
    m.ports == [] || SomePortMatches(m.ports, p)
  }

  predicate MatchCovers(cache: PodCache, dir: MatchType, m: Match, p: Packet) {
    m.mtype == dir && CoversPeer(cache, m, PeerAddress(dir, p)) && CoversPort(m, p)
  }

  predicate SomeMatchCovers(cache: PodCache, dir: MatchType, matches: seq<Match>, p: Packet) {
    exists m :: m in matches && MatchCovers(cache, dir, m, p)
  }

  predicate PolicyCovers(cache: PodCache, dir: MatchType, policy: ContivPolicy, p: Packet) {
    Applies(policy, dir) && SomeMatchCovers(cache, dir, policy.matches, p)
  }

  predicate SomePolicyCovers(cache: PodCache, dir: MatchType, policies: seq<ContivPolicy>, p: Packet) {
    exists policy :: policy in policies && PolicyCovers(cache, dir, policy, p)
  }

  /** Traffic matched by a policy is allowed; traffic not matched by any policy of a
      non-empty set is denied; without a policy nothing is decided. */
  function Meaning(cache: PodCache, dir: MatchType, policies: seq<ContivPolicy>, p: Packet): Verdict {
    if SomePolicyCovers(cache, dir, policies, p) then Allowed
    else if exists policy :: policy in policies && Applies(policy, dir) then Denied
    else Unmatched
  }
}
