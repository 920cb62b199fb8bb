/** The ID allocator of one node, run against a store that the other nodes keep changing between
    its accesses (plugins/contiv/node_id_allocator.go). */
module NodeIDAllocator {
  import opened Base
  import opened NodeIDs

  /** The store and the nodes around it.  The trace records every access since the start. */
  class Etcd {
    var cluster: Cluster
    ghost const start: Cluster
    ghost var trace: seq<Action>

    ghost predicate Valid()
      reads this
    {
      cluster == Run(start, trace) && Inv(cluster) && |cluster.nodes.Keys| < 0x1_0000_0000
    }

    constructor (labels: set<Label>)
      requires |labels| < 0x1_0000_0000
      ensures Valid() && cluster == Initial(labels) && trace == []
    {
      cluster := Initial(labels);
      start := Initial(labels);
      trace := [];
      assert Initial(labels).nodes.Keys == labels;
    }

    method Access(a: Action)
      requires Valid()
      modifies this
      ensures !Loses(a) ==> Valid() && cluster.nodes.Keys == old(cluster.nodes.Keys)
      ensures cluster == Step(old(cluster), a) && trace == old(trace) + [a]
    {
      hide Step, Inv;
      if !Loses(a) { StepKeeps(cluster, a); }
      cluster := Step(cluster, a);
      trace := trace + [a];
    }

    /** Any actions of the other nodes, except deletions that get lost. */
    method ActOthers(me: Label, actions: seq<Action>)
      requires Valid()
      modifies this
      ensures Valid() && old(trace) <= trace && cluster.nodes.Keys == old(cluster.nodes.Keys)
      ensures me in cluster.nodes ==> cluster.nodes[me] == old(cluster.nodes)[me]
    {
      for k := 0 to |actions|
        invariant Valid() && old(trace) <= trace && cluster.nodes.Keys == old(cluster.nodes.Keys)
        invariant me in cluster.nodes ==> cluster.nodes[me] == old(cluster.nodes)[me]
      {
        hide StoreAfter, NodeAfter, Inv, Run;
        if actions[k].node != me && !Loses(actions[k]) {
          Access(actions[k]);
        }
      }
    }
  }

  /** findExistingEntry: the entry with the label, whatever the order of the listing. */
  method FindExistingEntry(store: map<int, Label>, serviceLabel: Label) returns (id: Option<int>)
    ensures id.None? <==> !HasEntry(store, serviceLabel)
    ensures id.Some? ==> id.value in store && store[id.value] == serviceLabel
  {
    var todo := store.Keys;
    while todo != {}
      invariant todo <= store.Keys
      invariant forall i :: i in store && i !in todo ==> store[i] != serviceLabel
      decreases todo
    {
      Nonempty(todo);
      var i :| i in todo;
      if store[i] == serviceLabel {
        return Some(i);
      }
      todo := todo - {i};
    }
    return None;
  }

  /** listAllIDs and sort.Ints: the keys in increasing order. */
  method ListAllIDs(store: map<int, Label>) returns (ids: seq<int>)
    ensures Increasing(ids) && (set v | v in ids) == store.Keys
  {
    ids := [];
    var todo := store.Keys;
    while todo != {}
      invariant todo <= store.Keys && Increasing(ids) && (set v | v in ids) == store.Keys - todo
      invariant forall v, x :: v in ids && x in todo ==> v < x
      decreases todo
    {
      var m := Smallest(todo);
      ghost var before := ids;
      assert forall k :: 0 <= k < |before| ==> before[k] in before;
      ids := ids + [m];
      todo := todo - {m};
      assert (set v | v in ids) == (set v | v in before) + {m} by {
        assert forall v :: v in ids <==> v in before || v == m;
      }
    }
  }

  /** What goes wrong with an access: an error reply, for a put with or without the effect. */
  datatype Fault = NoFault | Failed | AppliedButFailed

  datatype Outcome = Claimed | GaveUp | Again

  class IdAllocator {
    const etcd: Etcd
    const serviceLabel: Label
    var isAllocated: bool
    var ID: uint32

    ghost predicate Valid()
      reads this, etcd
    {
      && etcd.Valid() && serviceLabel in etcd.cluster.nodes
      && etcd.cluster.nodes[serviceLabel] == if isAllocated then Holding(ID) else Idle
    }

    /** A node that has just started: it does not know an ID even if the store has one. */
    constructor (etcd: Etcd, serviceLabel: Label)
      requires etcd.Valid() && serviceLabel in etcd.cluster.nodes && etcd.cluster.nodes[serviceLabel].Idle?
      ensures Valid() && this.etcd == etcd && this.serviceLabel == serviceLabel && !isAllocated
    {
      this.etcd, this.serviceLabel, isAllocated, ID := etcd, serviceLabel, false, 0;
    }

    /** getID.  others and faults say what happens around the accesses, in order.  Whatever they
        are, the accesses are steps of the protocol, and the node ends up holding the returned
        ID, which is at most the number of nodes, or nothing. */
    method GetID(others: nat -> seq<Action>, faults: nat -> Fault) returns (r: Option<uint8>)
      requires Valid()
      modifies this, etcd
      ensures Valid() && old(etcd.trace) <= etcd.trace && etcd.cluster.nodes.Keys == old(etcd.cluster.nodes.Keys)
      ensures r == if isAllocated then Some(ID % 0x100) else None
      ensures isAllocated ==> 1 <= ID <= |etcd.cluster.nodes.Keys| && ID in etcd.cluster.store && etcd.cluster.store[ID] == serviceLabel
      ensures old(isAllocated) ==> isAllocated && ID == old(ID) && etcd.trace == old(etcd.trace)
    {
      hide Inv, Run, StoreAfter, FirstFrom, EntryOf;
      if isAllocated {
        HoldingOwns(etcd.cluster, serviceLabel);
        return Some(ID % 0x100);
      }
      etcd.ActOthers(serviceLabel, others(0));
      if faults(0) != NoFault {
        return None;
      }
      var existing := FindExistingEntry(etcd.cluster.store, serviceLabel);
      FoundIs(etcd.cluster, serviceLabel, existing);
      etcd.Access(Find(serviceLabel));
      if existing.Some? {
        HoldingOwns(etcd.cluster, serviceLabel);
        isAllocated := true;
        ID := existing.value;
        return Some(ID % 0x100);
      }
      r := Claim(others, faults);
    }

    /** The retry loop of getID. */
    method Claim(others: nat -> seq<Action>, faults: nat -> Fault) returns (r: Option<uint8>)
      requires etcd.Valid() && serviceLabel in etcd.cluster.nodes && !isAllocated
      requires etcd.cluster.nodes[serviceLabel] == Searched(0)
      modifies this, etcd
      ensures Valid() && old(etcd.trace) <= etcd.trace && etcd.cluster.nodes.Keys == old(etcd.cluster.nodes.Keys)
      ensures r == if isAllocated then Some(ID % 0x100) else None
      ensures isAllocated ==> 1 <= ID <= |etcd.cluster.nodes.Keys| && ID in etcd.cluster.store && etcd.cluster.store[ID] == serviceLabel
    {
      hide Valid, HasEntry, Inv, Etcd.Valid;
      var attempts := 0;
      while true
        invariant etcd.Valid() && serviceLabel in etcd.cluster.nodes && !isAllocated
        invariant etcd.cluster.nodes[serviceLabel] == Searched(attempts) && 0 <= attempts <= MAX_ATTEMPTS
        invariant old(etcd.trace) <= etcd.trace && etcd.cluster.nodes.Keys == old(etcd.cluster.nodes.Keys)
        decreases MAX_ATTEMPTS - attempts
      {
        var k := 2 * attempts + 1;
        var outcome := Attempt(attempts, others(k), faults(k), others(k + 1), faults(k + 1));
        match outcome
        case Claimed => return Some(ID % 0x100);
        case GaveUp => return None;
        case Again => attempts := attempts + 1;
      }
    }

    /** One round of the loop: list, choose, put. */
    method Attempt(attempts: nat, before: seq<Action>, listFault: Fault, between: seq<Action>, putFault: Fault) returns (o: Outcome)
      requires etcd.Valid() && serviceLabel in etcd.cluster.nodes && !isAllocated
      requires etcd.cluster.nodes[serviceLabel] == Searched(attempts)
      modifies this, etcd
      ensures etcd.Valid() && old(etcd.trace) <= etcd.trace && etcd.cluster.nodes.Keys == old(etcd.cluster.nodes.Keys)
      ensures serviceLabel in etcd.cluster.nodes && (isAllocated <==> o.Claimed?)
      ensures !o.Again? ==> Valid()
      ensures o.Claimed? ==> 1 <= ID <= |etcd.cluster.nodes.Keys| && ID in etcd.cluster.store && etcd.cluster.store[ID] == serviceLabel
      ensures o.Again? ==> etcd.cluster.nodes[serviceLabel] == Searched(attempts + 1) && attempts < MAX_ATTEMPTS
    {
      hide *;
      etcd.ActOthers(serviceLabel, before);
      if listFault != NoFault {
        StepOf(etcd.cluster, Crash(serviceLabel));
        etcd.Access(Crash(serviceLabel));
        IdleIsValid();
        return GaveUp;
      }
      Choose();
      etcd.ActOthers(serviceLabel, between);
      var put := if putFault == NoFault then Put(serviceLabel) else PutError(serviceLabel, putFault == AppliedButFailed);
      var succ := ID !in etcd.cluster.store;
      StepOf(etcd.cluster, put);
      etcd.Access(put);
      if putFault == NoFault && succ {
        MarkAllocated();
        return Claimed;
      }
      if putFault != NoFault || attempts + 1 > MAX_ATTEMPTS {
        IdleIsValid();
        return GaveUp;
      }
      return Again;
    }

    /** Lists the IDs and picks the first available one. */
    method Choose()
      requires etcd.Valid() && serviceLabel in etcd.cluster.nodes && etcd.cluster.nodes[serviceLabel].Searched?
      modifies this`ID, etcd
      ensures etcd.Valid() && old(etcd.trace) <= etcd.trace && etcd.cluster.nodes.Keys == old(etcd.cluster.nodes.Keys)
      ensures serviceLabel in etcd.cluster.nodes
      ensures etcd.cluster.nodes[serviceLabel] == Candidate(ID, old(etcd.cluster).nodes[serviceLabel].attempts + 1)
    {
      hide Inv, Run, StoreAfter, FirstFrom, EntryOf;
      var ids := ListAllIDs(etcd.cluster.store);
      IdsPositive(etcd.cluster, ids);
      etcd.Access(List(serviceLabel));
      var index := FindFirstAvailableIndex(ids);
      CandidateFits(etcd.cluster, serviceLabel);
      ID := index % 0x1_0000_0000;
    }

    lemma IdleIsValid()
      requires etcd.Valid() && serviceLabel in etcd.cluster.nodes && !isAllocated && etcd.cluster.nodes[serviceLabel] == Idle
      ensures Valid()
    {
    }

    method MarkAllocated()
      requires etcd.Valid() && serviceLabel in etcd.cluster.nodes && etcd.cluster.nodes[serviceLabel] == Holding(ID)
      modifies this`isAllocated
      ensures Valid() && isAllocated && 1 <= ID <= |etcd.cluster.nodes.Keys|
      ensures ID in etcd.cluster.store && etcd.cluster.store[ID] == serviceLabel
    {
      hide Inv, Run;
      HoldingOwns(etcd.cluster, serviceLabel);
      isAllocated := true;
    }

    /** releaseID: after an error the node keeps its ID, though the entry may be gone. */
    method ReleaseID(fault: Fault) returns (ok: bool)
      requires Valid()
      modifies this, etcd
      ensures fault != AppliedButFailed ==> Valid()
      ensures ok == (old(isAllocated) && fault == NoFault) && isAllocated == (old(isAllocated) && !ok)
      ensures etcd.cluster.store ==
              if old(isAllocated) && fault != Failed then old(etcd.cluster.store) - {old(ID)} else old(etcd.cluster.store)
      ensures etcd.cluster.nodes == old(etcd.cluster.nodes)[serviceLabel := if isAllocated then Holding(old(ID)) else Idle]
    {
      hide Inv, Run, FirstFrom, EntryOf;
      if !isAllocated {
        return false;
      }
      if fault != NoFault {
        etcd.Access(ReleaseError(serviceLabel, fault == AppliedButFailed));
        return false;
      }
      etcd.Access(Release(serviceLabel));
      isAllocated := false;
      return true;
    }
  }

  /** The outcome of an access that follows a listing. */
  lemma StepOf(c: Cluster, a: Action)
    requires a.node in c.nodes && (a.Crash? || ((a.Put? || a.PutError?) && c.nodes[a.node].Candidate?))
    ensures a.node in Step(c, a).nodes && !Loses(a)
    ensures a.Crash? || a.PutError? ==> Step(c, a).nodes[a.node] == Idle
    ensures a.Put? ==> var n := c.nodes[a.node];
              Step(c, a).nodes[a.node] ==
              if n.id !in c.store then Holding(n.id) else if n.attempts > MAX_ATTEMPTS then Idle else Searched(n.attempts)
  {
  }

  lemma HoldingOwns(c: Cluster, l: Label)
    requires Inv(c) && l in c.nodes && c.nodes[l].Holding?
    ensures var id := c.nodes[l].id; id in c.store && c.store[id] == l && 1 <= id <= |c.nodes.Keys|
  {
    assert NodeOk(c, l);
  }

  lemma FoundIs(c: Cluster, l: Label, found: Option<int>)
    requires Inv(c) && (found.None? <==> !HasEntry(c.store, l))
    requires found.Some? ==> found.value in c.store && c.store[found.value] == l
    ensures found.Some? ==> HasEntry(c.store, l) && found.value == EntryOf(c.store, l)
  {
    hide EntryOf;
  }

  lemma IdsPositive(c: Cluster, ids: seq<int>)
    requires Inv(c) && (set v | v in ids) == c.store.Keys
    ensures forall v :: v in ids ==> 1 <= v
  {
    assert forall v :: v in ids ==> v in c.store.Keys;
  }

  lemma CandidateFits(c: Cluster, l: Label)
    requires Inv(c) && l in c.nodes && c.nodes[l].Candidate? && |c.nodes.Keys| < 0x1_0000_0000
    ensures 1 <= c.nodes[l].id < 0x1_0000_0000
  {
    assert NodeOk(c, l);
  }
}
