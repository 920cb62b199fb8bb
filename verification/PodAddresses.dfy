/** Pod addresses in the whole cluster: the protocol for node IDs composed with the address
    management of every node (plugins/contiv/node_id_allocator.go, plugins/contiv/ipam/ipam.go,
    plugins/contiv/plugin_impl_contiv.go).  Pods outlive the agent of their node, whether it crashes or
    is closed and returns its ID. */
module PodAddresses {
  import opened Base
  import NodeIDs
  import opened Ipam

  type Label = NodeIDs.Label

  /** The address management of a started node. */
  datatype Host = Host(hostID: uint8, pool: Pool)

  /** A pod on a node uses an address. */
  datatype Lease = Lease(node: Label, podID: string, addr: uint32)

  datatype State = State(ids: NodeIDs.Cluster, hosts: map<Label, Host>, leases: set<Lease>)

  datatype Event =
    | Protocol(action: NodeIDs.Action)
    | Start(node: Label)                                      // IPAM is created with the ID of the node
    | AllocatePod(node: Label, podID: string, addr: uint32)
    | ReleasePod(node: Label, podID: string, addr: uint32)
    | PodGone(node: Label, podID: string, addr: uint32)       // without the agent, or unknown to it

  function NetworkOf(subnet: Net4, plen: uint8, h: Host): Net4 {
    ApplyHostID(subnet, h.hostID, plen)
  }

  predicate HoldsID(c: NodeIDs.Cluster, l: Label) {
    l in c.nodes && c.nodes[l].Holding?
  }

  /** Nodes that lost or returned their ID are stopped. */
  function Running(c: NodeIDs.Cluster, hosts: map<Label, Host>): map<Label, Host> {
    map l | l in hosts && HoldsID(c, l) :: hosts[l]
  }

  function WithPool(s: State, l: Label, pool: Pool, leases: set<Lease>): State
    requires l in s.hosts
  {
    State(s.ids, s.hosts[l := s.hosts[l].(pool := pool)], leases)
  }

  ghost predicate Next(subnet: Net4, plen: uint8, s: State, e: Event, s': State) {
    match e
    case Protocol(a) =>
      && !NodeIDs.Loses(a)
      && s'.ids == NodeIDs.Step(s.ids, a) && s'.hosts == Running(s'.ids, s.hosts) && s'.leases == s.leases
    case Start(l) =>
      && HoldsID(s.ids, l) && l !in s.hosts
      && s' == s.(hosts := s.hosts[l := Host(s.ids.nodes[l].id % 0x100, map[])])
    case AllocatePod(l, podID, addr) =>
      && l in s.hosts && addr !in s.hosts[l].pool
      && Allocates(NetworkOf(subnet, plen, s.hosts[l]), s.hosts[l].pool, podID, s.hosts[l].pool[addr := podID])
      && s' == WithPool(s, l, s.hosts[l].pool[addr := podID], s.leases + {Lease(l, podID, addr)})
    case ReleasePod(l, podID, addr) =>
      && l in s.hosts && podID != "" && addr in s.hosts[l].pool && s.hosts[l].pool[addr] == podID
      && s' == WithPool(s, l, s.hosts[l].pool - {addr}, s.leases - {Lease(l, podID, addr)})
    case PodGone(l, podID, addr) =>
      && (l in s.hosts ==> !(addr in s.hosts[l].pool && s.hosts[l].pool[addr] == podID))
      && s' == s.(leases := s.leases - {Lease(l, podID, addr)})
  }

  ghost predicate HostOk(subnet: Net4, plen: uint8, c: NodeIDs.Cluster, l: Label, h: Host) {
    HoldsID(c, l) && h.hostID == c.nodes[l].id % 0x100 && PoolOk(NetworkOf(subnet, plen, h), h.pool)
  }

  /** The address lies in the network of the ID that the store has for the node of the pod. */
  ghost predicate LeaseOk(subnet: Net4, plen: uint8, c: NodeIDs.Cluster, x: Lease) {
    exists id :: id in c.store && c.store[id] == x.node && InPodNetwork(subnet, plen, id, x.addr)
  }

  predicate InPodNetwork(subnet: Net4, plen: uint8, id: int, addr: uint32) {
    var n := ApplyHostID(subnet, id % 0x100, plen);
    n.plen <= 32 && InNet(n, addr)
  }

  ghost predicate Inv(subnet: Net4, plen: uint8, s: State) {
    && NodeIDs.Inv(s.ids)
    && (forall l :: l in s.hosts ==> HostOk(subnet, plen, s.ids, l, s.hosts[l]))
  }

  ghost predicate LeasesOk(subnet: Net4, plen: uint8, s: State) {
    forall x :: x in s.leases ==> LeaseOk(subnet, plen, s.ids, x)
  }

  /** The event is a node returning its ID while pods are still there. */
  ghost predicate Abandons(s: State, e: Event) {
    e.Protocol? && e.action.Release? && NodeIDs.Enabled(s.ids, e.action) && exists x :: x in s.leases && x.node == e.action.node
  }

  /** A step of one node does not change the ID that another one holds, nor does any step change
      an ID that stays held. */
  lemma StaysHeld(c: NodeIDs.Cluster, a: NodeIDs.Action, l: Label)
    requires HoldsID(c, l) && HoldsID(NodeIDs.Step(c, a), l)
    ensures NodeIDs.Step(c, a).nodes[l] == c.nodes[l]
  {
  }

  /** An entry stays in the store until its node returns the ID, however often the node crashes. */
  lemma EntryStays(c: NodeIDs.Cluster, a: NodeIDs.Action, id: int)
    requires NodeIDs.Inv(c) && !NodeIDs.Loses(a) && id in c.store
    requires !(a.Release? && NodeIDs.Enabled(c, a) && c.store[id] == a.node)
    ensures id in NodeIDs.Step(c, a).store && NodeIDs.Step(c, a).store[id] == c.store[id]
  {
    if a.Release? && NodeIDs.Enabled(c, a) {
      assert NodeIDs.NodeOk(c, a.node);
    }
  }

  lemma ProtocolKeeps(subnet: Net4, plen: uint8, s: State, a: NodeIDs.Action, s': State)
    requires Inv(subnet, plen, s) && Next(subnet, plen, s, Protocol(a), s')
    ensures Inv(subnet, plen, s') && s'.ids.nodes.Keys == s.ids.nodes.Keys
    ensures LeasesOk(subnet, plen, s) && !Abandons(s, Protocol(a)) ==> LeasesOk(subnet, plen, s')
  {
    hide NodeIDs.Inv, NodeIDs.Step, NodeIDs.Enabled, ApplyHostID, PoolOk, InPodNetwork;
    NodeIDs.StepKeeps(s.ids, a);
    forall l | l in s'.hosts ensures HostOk(subnet, plen, s'.ids, l, s'.hosts[l]) {
      StaysHeld(s.ids, a, l);
    }
    if LeasesOk(subnet, plen, s) && !Abandons(s, Protocol(a)) {
      forall x | x in s'.leases ensures LeaseOk(subnet, plen, s'.ids, x) {
        assert LeaseOk(subnet, plen, s.ids, x);
        var id :| id in s.ids.store && s.ids.store[id] == x.node && InPodNetwork(subnet, plen, id, x.addr);
        EntryStays(s.ids, a, id);
      }
    }
  }

  lemma NewLease(subnet: Net4, plen: uint8, c: NodeIDs.Cluster, l: Label, h: Host, podID: string, addr: uint32)
    requires ValidConfig(subnet, plen) && NodeIDs.Inv(c) && HostOk(subnet, plen, c, l, h) && addr in h.pool
    ensures LeaseOk(subnet, plen, c, Lease(l, podID, addr))
  {
    hide PoolOk, ApplyHostID, InNet, Size;
    assert NodeIDs.NodeOk(c, l);
    AssignedInside(subnet, h.hostID, plen, h.pool, addr);
    assert InPodNetwork(subnet, plen, c.nodes[l].id, addr);
  }

  /** Every event keeps the protocol invariant and every pool inside the network of the ID that its
      node holds; and every pod inside the network of the ID that the store has for its node, unless
      the node returns that ID. */
  lemma NextKeeps(subnet: Net4, plen: uint8, s: State, e: Event, s': State)
    requires ValidConfig(subnet, plen) && Inv(subnet, plen, s) && Next(subnet, plen, s, e, s')
    ensures Inv(subnet, plen, s') && s'.ids.nodes.Keys == s.ids.nodes.Keys
    ensures LeasesOk(subnet, plen, s) && !Abandons(s, e) ==> LeasesOk(subnet, plen, s')
  {
    hide NodeIDs.Inv, NodeIDs.Step, ApplyHostID, PoolOk, Allocates, LeaseOk, Abandons;
    match e
    case Protocol(a) =>
      ProtocolKeeps(subnet, plen, s, a, s');
    case Start(l) =>
      EmptyPool(subnet, plen, s'.hosts[l]);
    case AllocatePod(l, podID, addr) =>
      AllocateKeeps(NetworkOf(subnet, plen, s.hosts[l]), s.hosts[l].pool, podID, s'.hosts[l].pool);
      NewLease(subnet, plen, s.ids, l, s'.hosts[l], podID, addr);
    case ReleasePod(l, podID, addr) =>
      assert Releases(s.hosts[l].pool, podID, s'.hosts[l].pool);
      ReleaseKeeps(NetworkOf(subnet, plen, s.hosts[l]), s.hosts[l].pool, podID, s'.hosts[l].pool);
    case PodGone(_, _, _) =>
  }

  lemma EmptyPool(subnet: Net4, plen: uint8, h: Host)
    requires ValidConfig(subnet, plen) && h.pool == map[]
    ensures PoolOk(NetworkOf(subnet, plen, h), h.pool)
  {
    NetworkIs(subnet, h.hostID, plen);
  }

  ghost predicate IsRun(subnet: Net4, plen: uint8, labels: set<Label>, states: seq<State>, events: seq<Event>) {
    && |states| == |events| + 1 && states[0] == State(NodeIDs.Initial(labels), map[], {})
    && (forall k :: 0 <= k < |events| ==> Next(subnet, plen, states[k], events[k], states[k + 1]))
  }

  lemma {:induction false} RunKeeps(subnet: Net4, plen: uint8, labels: set<Label>, states: seq<State>, events: seq<Event>)
    requires ValidConfig(subnet, plen) && IsRun(subnet, plen, labels, states, events)
    ensures Inv(subnet, plen, states[|events|]) && states[|events|].ids.nodes.Keys == labels
    ensures NoneAbandoned(states, events) ==> LeasesOk(subnet, plen, states[|events|])
  {
    hide Next, ValidConfig, Abandons;
    if events == [] {
      assert NodeIDs.Initial(labels).nodes.Keys == labels;
    } else {
      hide Inv, LeasesOk;
      var n := |events| - 1;
      assert forall k :: 0 <= k < n ==> events[..n][k] == events[k] && states[..n + 1][k] == states[k];
      RunKeeps(subnet, plen, labels, states[..n + 1], events[..n]);
      NextKeeps(subnet, plen, states[n], events[n], states[n + 1]);
    }
  }

  /** No node returns its ID while pods are still there. */
  ghost predicate NoneAbandoned(states: seq<State>, events: seq<Event>)
    requires |states| == |events| + 1
  {
    forall k :: 0 <= k < |events| ==> !Abandons(states[k], events[k])
  }

  // ----- Pods on different nodes -----

  /** In every reachable state of a cluster of at most 255 nodes whose IDs fit into the host
      part, the networks of two started nodes are disjoint and inside the pod subnet. */
  lemma NodeNetworksDisjoint(subnet: Net4, plen: uint8, labels: set<Label>, states: seq<State>, events: seq<Event>, l: Label, m: Label)
    requires ValidConfig(subnet, plen) && plen - subnet.plen >= 8 && |labels| <= 255
    requires IsRun(subnet, plen, labels, states, events)
    requires var s := states[|events|]; l != m && l in s.hosts && m in s.hosts
    ensures var s := states[|events|];
            var n1, n2 := NetworkOf(subnet, plen, s.hosts[l]), NetworkOf(subnet, plen, s.hosts[m]);
            && n1.plen <= 32 && n2.plen <= 32
            && (forall addr :: !(InNet(n1, addr) && InNet(n2, addr)))
            && (forall addr :: InNet(n1, addr) ==> InNet(subnet, addr))
            && (forall addr :: addr in s.hosts[l].pool ==> InNet(n1, addr) && addr !in s.hosts[m].pool)
  {
    hide Next, ApplyHostID, PoolOk, InNet, NodeIDs.Inv, LeaseOk;
    RunKeeps(subnet, plen, labels, states, events);
    var s := states[|events|];
    var h1, h2 := s.hosts[l], s.hosts[m];
    assert HostOk(subnet, plen, s.ids, l, h1) && HostOk(subnet, plen, s.ids, m, h2);
    DistinctIDs(s.ids, l, m);
    NetworksDisjointIff(subnet, h1.hostID, h2.hostID, plen);
    forall addr: uint32 ensures addr in h1.pool ==> InNet(NetworkOf(subnet, plen, h1), addr) {
      if addr in h1.pool { AssignedInside(subnet, h1.hostID, plen, h1.pool, addr); }
    }
    forall addr: uint32 ensures addr in h2.pool ==> InNet(NetworkOf(subnet, plen, h2), addr) {
      if addr in h2.pool { AssignedInside(subnet, h2.hostID, plen, h2.pool, addr); }
    }
  }

  lemma DistinctIDs(c: NodeIDs.Cluster, l: Label, m: Label)
    requires NodeIDs.Inv(c) && l != m && HoldsID(c, l) && HoldsID(c, m) && |c.nodes.Keys| <= 255
    ensures c.nodes[l].id % 0x100 != c.nodes[m].id % 0x100
  {
    assert NodeIDs.NodeOk(c, l) && NodeIDs.NodeOk(c, m);
  }

  ghost predicate DifferAcrossNodes(leases: set<Lease>) {
    forall x, y :: x in leases && y in leases && x.node != y.node ==> x.addr != y.addr
  }

  /** As long as no node returns its ID while pods are still there, and however often the agents crash
      and come back, pods on different nodes use different addresses. */
  lemma PodAddressesUnique(subnet: Net4, plen: uint8, labels: set<Label>, states: seq<State>, events: seq<Event>)
    requires ValidConfig(subnet, plen) && plen - subnet.plen >= 8 && |labels| <= 255
    requires IsRun(subnet, plen, labels, states, events) && NoneAbandoned(states, events)
    ensures var leases := states[|events|].leases; DifferAcrossNodes(leases) && forall x :: x in leases ==> InNet(subnet, x.addr)
  {
    hide Next, InPodNetwork, HostOk, NodeIDs.Inv, NoneAbandoned, InNet;
    RunKeeps(subnet, plen, labels, states, events);
    var c, leases := states[|events|].ids, states[|events|].leases;
    forall x, y | x in leases && y in leases ensures InNet(subnet, x.addr) && (x.node != y.node ==> x.addr != y.addr) {
      assert LeaseOk(subnet, plen, c, x) && LeaseOk(subnet, plen, c, y);
      var i :| i in c.store && c.store[i] == x.node && InPodNetwork(subnet, plen, i, x.addr);
      var j :| j in c.store && c.store[j] == y.node && InPodNetwork(subnet, plen, j, y.addr);
      EntryNetworks(subnet, plen, c, i, j, x.addr);
    }
  }

  lemma EntryNetworks(subnet: Net4, plen: uint8, c: NodeIDs.Cluster, i: int, j: int, addr: uint32)
    requires ValidConfig(subnet, plen) && plen - subnet.plen >= 8 && NodeIDs.Inv(c) && |c.nodes.Keys| <= 255
    requires i in c.store && j in c.store && InPodNetwork(subnet, plen, i, addr)
    ensures InNet(subnet, addr) && (c.store[i] != c.store[j] ==> !InPodNetwork(subnet, plen, j, addr))
  {
    hide ApplyHostID, InNet, NodeIDs.Inv, Pow2;
    NetworksDisjointIff(subnet, i % 0x100, j % 0x100, plen);
    if c.store[i] != c.store[j] { EntriesDiffer(c, i, j); }
  }

  lemma EntriesDiffer(c: NodeIDs.Cluster, i: int, j: int)
    requires NodeIDs.Inv(c) && |c.nodes.Keys| <= 255 && i in c.store && j in c.store && c.store[i] != c.store[j]
    ensures i % 0x100 != j % 0x100
  {
  }

  /** Two nodes that one after the other get the first ID, because the first one returns it. */
  lemma ReturnAndReuse(labels: set<Label>, l: Label, m: Label) returns (c: seq<NodeIDs.Cluster>)
    requires l in labels && m in labels && l != m
    ensures |c| == 8 && c[0] == NodeIDs.Initial(labels)
    ensures c[1] == NodeIDs.Step(c[0], NodeIDs.Find(l)) && c[2] == NodeIDs.Step(c[1], NodeIDs.List(l))
    ensures c[3] == NodeIDs.Step(c[2], NodeIDs.Put(l)) && c[4] == NodeIDs.Step(c[3], NodeIDs.Release(l))
    ensures c[5] == NodeIDs.Step(c[4], NodeIDs.Find(m)) && c[6] == NodeIDs.Step(c[5], NodeIDs.List(m))
    ensures c[7] == NodeIDs.Step(c[6], NodeIDs.Put(m))
    ensures l in c[3].nodes && c[3].nodes[l] == NodeIDs.Holding(1) && m in c[7].nodes && c[7].nodes[m] == NodeIDs.Holding(1)
    ensures !HoldsID(c[4], l) && !HoldsID(c[5], l) && !HoldsID(c[6], l) && !HoldsID(c[7], l)
  {
    hide NodeIDs.FirstFrom, NodeIDs.Step;
    var c0 := NodeIDs.Initial(labels);
    var c1, c2, c3 := ClaimSteps(c0, l);
    var c4 := NodeIDs.Step(c3, NodeIDs.Release(l));
    ReleaseFirst(c0, l);
    assert c4.nodes == c0.nodes;
    var c5, c6, c7 := ClaimSteps(c4, m);
    c := [c0, c1, c2, c3, c4, c5, c6, c7];
  }

  lemma ClaimSteps(c: NodeIDs.Cluster, l: Label) returns (c1: NodeIDs.Cluster, c2: NodeIDs.Cluster, c3: NodeIDs.Cluster)
    requires c.store == map[] && l in c.nodes && c.nodes[l].Idle?
    ensures c1 == NodeIDs.Step(c, NodeIDs.Find(l)) && c2 == NodeIDs.Step(c1, NodeIDs.List(l)) && c3 == NodeIDs.Step(c2, NodeIDs.Put(l))
    ensures c3 == NodeIDs.Cluster(map[1 := l], c.nodes[l := NodeIDs.Holding(1)])
    ensures forall m :: m in c.nodes && m != l ==> c1.nodes[m] == c2.nodes[m] == c.nodes[m]
    ensures c1.nodes.Keys == c2.nodes.Keys == c.nodes.Keys
  {
    hide NodeIDs.FirstFrom;
    assert !NodeIDs.HasEntry(c.store, l);
    c1 := NodeIDs.Step(c, NodeIDs.Find(l));
    NodeIDs.FirstIsLeast({}, 1);
    c2 := NodeIDs.Step(c1, NodeIDs.List(l));
    c3 := NodeIDs.Step(c2, NodeIDs.Put(l));
  }

  lemma ReleaseFirst(c: NodeIDs.Cluster, l: Label)
    requires c.store == map[] && l in c.nodes && c.nodes[l].Idle?
    ensures NodeIDs.Step(NodeIDs.Cluster(map[1 := l], c.nodes[l := NodeIDs.Holding(1)]), NodeIDs.Release(l)) == c
  {
    hide NodeIDs.FirstFrom;
    var d := NodeIDs.Cluster(map[1 := l], c.nodes[l := NodeIDs.Holding(1)]);
    assert d.nodes[l := NodeIDs.Idle] == c.nodes;
  }

  /** An agent that is closed returns its ID while its pods stay: for any two nodes there is a run in
      which the second node gets the ID and hands the address of such a pod out again. */
  lemma ReturnedIDDuplicates(subnet: Net4, plen: uint8, labels: set<Label>, l: Label, m: Label, p1: string, p2: string)
    returns (states: seq<State>, events: seq<Event>)
    requires ValidConfig(subnet, plen) && plen <= 30 && l in labels && m in labels && l != m && p1 != "" && p2 != ""
    ensures IsRun(subnet, plen, labels, states, events)
    ensures !DifferAcrossNodes(states[|events|].leases)
  {
    hide NodeIDs.Step, NodeIDs.Initial, ApplyHostID, Addr, Size;
    var c := ReturnAndReuse(labels, l, m);
    var n := NetworkOf(subnet, plen, Host(1, map[]));
    NetworkIs(subnet, 1, plen);
    FirstFree(n);
    var a := Addr(n, 2);
    var x1, x2 := Lease(l, p1, a), Lease(m, p2, a);
    states := [
      State(c[0], map[], {}), State(c[1], map[], {}), State(c[2], map[], {}), State(c[3], map[], {}),
      State(c[3], map[l := Host(1, map[])], {}),
      State(c[3], map[l := Host(1, map[a := p1])], {x1}),
      State(c[4], map[], {x1}), State(c[5], map[], {x1}), State(c[6], map[], {x1}), State(c[7], map[], {x1}),
      State(c[7], map[m := Host(1, map[])], {x1}),
      State(c[7], map[m := Host(1, map[a := p2])], {x1, x2})];
    events := [
      Protocol(NodeIDs.Find(l)), Protocol(NodeIDs.List(l)), Protocol(NodeIDs.Put(l)), Start(l), AllocatePod(l, p1, a),
      Protocol(NodeIDs.Release(l)), Protocol(NodeIDs.Find(m)), Protocol(NodeIDs.List(m)), Protocol(NodeIDs.Put(m)),
      Start(m), AllocatePod(m, p2, a)];
    FirstAllocated(subnet, plen, c[3], l, a, p1, {});
    FirstAllocated(subnet, plen, c[7], m, a, p2, {x1});
    assert x1 in states[11].leases && x2 in states[11].leases;
  }

  /** Without that proviso, pods on different nodes use different addresses after all runs if and only
      if there are no two nodes. */
  lemma UniqueIffAlone(subnet: Net4, plen: uint8, labels: set<Label>)
    requires ValidConfig(subnet, plen) && plen <= 30
    ensures (forall states: seq<State>, events: seq<Event> :: IsRun(subnet, plen, labels, states, events) ==>
               DifferAcrossNodes(states[|events|].leases))
            <==> forall l, m :: l in labels && m in labels ==> l == m
  {
    hide Next, DifferAcrossNodes, ValidConfig;
    if l, m :| l in labels && m in labels && l != m {
      var states, events := ReturnedIDDuplicates(subnet, plen, labels, l, m, "p", "p");
    } else {
      forall states: seq<State>, events: seq<Event> | IsRun(subnet, plen, labels, states, events)
        ensures DifferAcrossNodes(states[|events|].leases)
      {
        LeasesOfNodes(subnet, plen, labels, states, events);
        AloneDiffers(labels, states[|events|].leases);
      }
    }
  }

  lemma AloneDiffers(labels: set<Label>, leases: set<Lease>)
    requires (forall x :: x in leases ==> x.node in labels) && forall l, m :: l in labels && m in labels ==> l == m
    ensures DifferAcrossNodes(leases)
  {
  }

  lemma {:induction false} LeasesOfNodes(subnet: Net4, plen: uint8, labels: set<Label>, states: seq<State>, events: seq<Event>)
    requires IsRun(subnet, plen, labels, states, events)
    ensures var s := states[|events|]; (forall x :: x in s.leases ==> x.node in labels) && s.hosts.Keys <= labels
    ensures states[|events|].ids.nodes.Keys == labels
  {
    if events == [] {
      assert NodeIDs.Initial(labels).nodes.Keys == labels;
    } else {
      var n := |events| - 1;
      LeasesOfNodes(subnet, plen, labels, states[..n + 1], events[..n]);
      assert Next(subnet, plen, states[n], events[n], states[n + 1]);
      NextOfNodes(subnet, plen, labels, states[n], events[n], states[n + 1]);
    }
  }

  lemma NextOfNodes(subnet: Net4, plen: uint8, labels: set<Label>, s: State, e: Event, s': State)
    requires Next(subnet, plen, s, e, s') && s.ids.nodes.Keys == labels && s.hosts.Keys <= labels
    requires forall x :: x in s.leases ==> x.node in labels
    ensures s'.ids.nodes.Keys == labels && s'.hosts.Keys <= labels && forall x :: x in s'.leases ==> x.node in labels
  {
    hide NodeIDs.StoreAfter, NodeIDs.NodeAfter, Allocates, ApplyHostID;
    if e.Protocol? { assert s'.ids.nodes.Keys == s.ids.nodes.Keys; }
  }

  // ----- Pods on one node -----

  ghost predicate OneLeasePerAddress(leases: set<Lease>) {
    forall x, y :: x in leases && y in leases && x.node == y.node && x.addr == y.addr ==> x == y
  }

  /** No agent starts while pods of its node are there. */
  ghost predicate CleanStarts(states: seq<State>, events: seq<Event>)
    requires |states| == |events| + 1
  {
    forall k, x :: 0 <= k < |events| && events[k].Start? && x in states[k].leases ==> x.node != events[k].node
  }

  ghost predicate PoolsKnow(s: State) {
    forall x :: x in s.leases && x.node in s.hosts ==> x.addr in s.hosts[x.node].pool && s.hosts[x.node].pool[x.addr] == x.podID
  }

  lemma NextKnows(subnet: Net4, plen: uint8, s: State, e: Event, s': State)
    requires OneLeasePerAddress(s.leases) && PoolsKnow(s) && Next(subnet, plen, s, e, s')
    requires e.Start? ==> forall x :: x in s.leases ==> x.node != e.node
    ensures OneLeasePerAddress(s'.leases) && PoolsKnow(s')
  {
    hide NodeIDs.Step, NodeIDs.Enabled, ApplyHostID, Allocates, HoldsID;
  }

  /** If no agent starts while pods of its node are there, no two pods of a node use the same
      address. */
  lemma {:induction false} NodeAddressesUnique(subnet: Net4, plen: uint8, labels: set<Label>, states: seq<State>, events: seq<Event>)
    requires IsRun(subnet, plen, labels, states, events) && CleanStarts(states, events)
    ensures OneLeasePerAddress(states[|events|].leases) && PoolsKnow(states[|events|])
  {
    hide Next, OneLeasePerAddress, PoolsKnow;
    if events == [] {
      NothingLeased(states[0]);
    } else {
      var n := |events| - 1;
      assert forall k :: 0 <= k < n ==> events[..n][k] == events[k] && states[..n + 1][k] == states[k];
      NodeAddressesUnique(subnet, plen, labels, states[..n + 1], events[..n]);
      NextKnows(subnet, plen, states[n], events[n], states[n + 1]);
    }
  }

  lemma NothingLeased(s: State)
    requires s.leases == {}
    ensures OneLeasePerAddress(s.leases) && PoolsKnow(s)
  {
  }

  /** A node that gets its first ID, crashes and finds its entry again. */
  lemma CrashAndReturn(labels: set<Label>, l: Label) returns (c: seq<NodeIDs.Cluster>)
    requires l in labels
    ensures |c| == 6 && c[0] == NodeIDs.Initial(labels)
    ensures c[1] == NodeIDs.Step(c[0], NodeIDs.Find(l)) && c[2] == NodeIDs.Step(c[1], NodeIDs.List(l))
    ensures c[3] == NodeIDs.Step(c[2], NodeIDs.Put(l)) && c[4] == NodeIDs.Step(c[3], NodeIDs.Crash(l))
    ensures c[5] == NodeIDs.Step(c[4], NodeIDs.Find(l))
    ensures l in c[3].nodes && c[3].nodes[l] == NodeIDs.Holding(1) && l in c[5].nodes && c[5].nodes[l] == NodeIDs.Holding(1)
    ensures !HoldsID(c[4], l)
  {
    hide NodeIDs.FirstFrom, NodeIDs.Step;
    var c0 := NodeIDs.Initial(labels);
    var c1, c2, c3 := ClaimSteps(c0, l);
    var c4 := NodeIDs.Step(c3, NodeIDs.Crash(l));
    var c5 := NodeIDs.Step(c4, NodeIDs.Find(l));
    CrashAndFind(c3, l);
    c := [c0, c1, c2, c3, c4, c5];
  }

  lemma CrashAndFind(c: NodeIDs.Cluster, l: Label)
    requires c.store == map[1 := l] && l in c.nodes
    ensures var d := NodeIDs.Step(c, NodeIDs.Crash(l));
            !HoldsID(d, l) && NodeIDs.Step(d, NodeIDs.Find(l)) == NodeIDs.Cluster(c.store, d.nodes[l := NodeIDs.Holding(1)])
  {
    hide NodeIDs.FirstFrom;
    var d := NodeIDs.Step(c, NodeIDs.Crash(l));
    assert d.store[1] == l && NodeIDs.HasEntry(d.store, l);
  }

  /** An agent that comes back has forgotten the addresses of its pods: in any cluster, the pod
      that asks next gets the address of a pod that is still there. */
  lemma RestartDuplicates(subnet: Net4, plen: uint8, labels: set<Label>, l: Label, p1: string, p2: string)
    returns (states: seq<State>, events: seq<Event>)
    requires ValidConfig(subnet, plen) && plen <= 30 && l in labels && p1 != "" && p2 != "" && p1 != p2
    ensures IsRun(subnet, plen, labels, states, events)
    ensures !OneLeasePerAddress(states[|events|].leases)
  {
    hide NodeIDs.Step, NodeIDs.Initial, ApplyHostID, Addr, Size;
    var c := CrashAndReturn(labels, l);
    var n := NetworkOf(subnet, plen, Host(1, map[]));
    NetworkIs(subnet, 1, plen);
    FirstFree(n);
    var a := Addr(n, 2);
    var x1, x2 := Lease(l, p1, a), Lease(l, p2, a);
    states := [
      State(c[0], map[], {}), State(c[1], map[], {}), State(c[2], map[], {}), State(c[3], map[], {}),
      State(c[3], map[l := Host(1, map[])], {}),
      State(c[3], map[l := Host(1, map[a := p1])], {x1}),
      State(c[4], map[], {x1}), State(c[5], map[], {x1}),
      State(c[5], map[l := Host(1, map[])], {x1}),
      State(c[5], map[l := Host(1, map[a := p2])], {x1, x2})];
    events := [
      Protocol(NodeIDs.Find(l)), Protocol(NodeIDs.List(l)), Protocol(NodeIDs.Put(l)), Start(l), AllocatePod(l, p1, a),
      Protocol(NodeIDs.Crash(l)), Protocol(NodeIDs.Find(l)), Start(l), AllocatePod(l, p2, a)];
    FirstAllocated(subnet, plen, c[3], l, a, p1, {});
    FirstAllocated(subnet, plen, c[5], l, a, p2, {x1});
    assert x1 in states[9].leases && x2 in states[9].leases;
  }

  lemma FirstFree(n: Net4)
    requires n.plen <= 30
    ensures IsNext(n, map[], 2)
  {
    PowPositive(32 - n.plen);
  }

  lemma PowPositive(k: nat)
    requires k >= 2
    ensures Pow2(k) >= 4
  {
    assert Pow2(k) == 2 * Pow2(k - 1) && Pow2(k - 1) == 2 * Pow2(k - 2);
  }

  lemma FirstAllocated(subnet: Net4, plen: uint8, c: NodeIDs.Cluster, l: Label, a: uint32, podID: string, leases: set<Lease>)
    requires podID != "" && var n := NetworkOf(subnet, plen, Host(1, map[])); IsNext(n, map[], 2) && a == Addr(n, 2)
    ensures Next(subnet, plen, State(c, map[l := Host(1, map[])], leases), AllocatePod(l, podID, a),
                 State(c, map[l := Host(1, map[a := podID])], leases + {Lease(l, podID, a)}))
  {
    hide ApplyHostID, Addr, IsNext;
    var n := NetworkOf(subnet, plen, Host(1, map[]));
    var none: Pool := map[];
    assert none[a := podID] == map[a := podID];
    assert Allocates(n, none, podID, none[Addr(n, 2) := podID]);
  }
}
