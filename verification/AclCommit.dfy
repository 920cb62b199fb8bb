/** Commit of the ACL renderer from end to end: resynchronisation, updates of the cache, diff,
    rendering and commit of the cache, on the objects of the cache
    (plugins/policy/renderer/acl/acl_renderer.go). */
module AclCommit {
  import opened Base
  import opened VppAcl
  import opened AclLists
  import opened AclRuleLists
  import opened AclCache
  import opened AclRenderer
  import opened AclRuns
  import opened AclTxn
  import opened AclResync

  // ----- One direction -----

  /** A head and the lists of the cache it overlays, with their values. */
  ghost predicate Ready(head: ContivRuleLists, base: ContivRuleLists, h: Lists, b: Lists, updated: map<Iface, Slice>)
    reads head, base, head.byID.Values, base.byID.Values
  {
    && head.Valid() && head.Compact() && base.Valid() && Apart(head, base)
    && head.View() == h && base.View() == b && Head(h, b, updated)
  }

  lemma ChangesFrom(all: seq<TxnChange>, filtered: seq<TxnChange>, head: ContivRuleLists, base: Lists)
    requires head.Valid()
    requires forall c :: c in all ==> head.Has(c.list) && c.previous == Previous(base, c.list.id) != c.list.interfaces
    requires forall x :: x in head.Items() && x.interfaces != Previous(base, x.id) ==> TxnChange(x, Previous(base, x.id)) in all
    requires forall c :: c in filtered <==> c in all && Contents(c.list.rules) != []
    requires forall j, k :: 0 <= j < k < |filtered| ==> filtered[j].list != filtered[k].list
    ensures AreChanges(filtered, head, head.View(), base)
  {
    hide SortedLists, CompareRuleLists, Agree, Slots;
    var v := head.View();
    forall k | 0 <= k < |filtered| ensures IsChange(filtered[k], head, v, base) {
      assert filtered[k] in filtered;
    }
    forall id | Changed(v, base, id) ensures exists k :: 0 <= k < |filtered| && filtered[k].list.id == id {
      var x := head.byID[id];
      assert x in head.Items() && x.interfaces != Previous(base, id);
      assert TxnChange(x, Previous(base, id)) in filtered;
    }
    forall j, k | 0 <= j < k < |filtered| ensures filtered[j].list.id != filtered[k].list.id {
      assert filtered[j] in all && filtered[k] in all;
    }
  }

  method DirectionChanges(head: ContivRuleLists, base: ContivRuleLists,
                          ghost h: Lists, ghost b: Lists, ghost updated: map<Iface, Slice>)
    returns (changes: seq<TxnChange>)
    requires Ready(head, base, h, b, updated)
    ensures AreChanges(changes, head, h, b)
    ensures changes == [] <==> forall id :: !Changed(h, b, id)
  {
    hide ContivRuleLists.Valid, ContivRuleLists.View, Head, Previous, Contents;
    var all := GetChanges(head, base);
    changes := FilterEmpty(all);
    assert Slots(head.ruleLists, head.numItems) by { ItemsOf(head); }
    ChangesFrom(all, changes, head, base.View());
    if changes != [] {
      assert IsChange(changes[0], head, h, b);
    }
  }

  method DirectionRender(changes: seq<TxnChange>, d: Direction, head: ContivRuleLists, base: ContivRuleLists,
                         ghost h: Lists, ghost b: Lists, ghost updated: map<Iface, Slice>)
    returns (puts: Table, deletes: set<string>)
    requires Ready(head, base, h, b, updated) && PrivateKept(b) && AreChanges(changes, head, h, b)
    modifies head.byID.Values
    ensures Ready(head, base, Remembered(h, b), b, updated)
    ensures forall id :: Puts(h, b, id) ==> Remembered(h, b)[id].priv.Some?
    ensures puts == PutAcls(h, b, d) && deletes == DeletedAcls(h, b)
  {
    hide ContivRuleLists.Valid, ContivRuleLists.View, PrivateKept, AreChanges, Remembered, PutAcls, DeletedAcls,
         HeadLists, HeadUpdated, HeadKeeps, Changed;
    RememberedHead(h, b, updated);
    puts, deletes := RenderChanges(changes, d, head, b);
  }

  method DirectionCommit(head: ContivRuleLists, base: ContivRuleLists,
                         ghost h: Lists, ghost b: Lists, ghost updated: map<Iface, Slice>, ghost order: seq<string>)
    requires Ready(head, base, h, b, updated)
    requires Slots(head.ruleLists, head.numItems) && order == Ids(head.Items())
    modifies base, base.byID.Values, head.byID.Values
    ensures base.Valid() && Enumerates(order, h)
    ensures base.View() == CommitAll(b, h, order)
    ensures base.byID.Values <= old(base.byID.Values) + head.byID.Values
  {
    hide ContivRuleLists.Valid, ContivRuleLists.View, Head, CommitAll, Refines;
    ReadyOrder(head, base, h, b, updated);
    CommitLists(head, base, updated);
  }

  lemma ReadyApart(head: ContivRuleLists, base: ContivRuleLists, h: Lists, b: Lists, updated: map<Iface, Slice>)
    requires Ready(head, base, h, b, updated)
    ensures Apart(head, base)
  {
  }

  lemma ReadyBase(head: ContivRuleLists, base: ContivRuleLists, h: Lists, b: Lists, updated: map<Iface, Slice>)
    requires Ready(head, base, h, b, updated)
    ensures base.Valid() && base.View() == b
  {
  }

  lemma ReadyOrder(head: ContivRuleLists, base: ContivRuleLists, h: Lists, b: Lists, updated: map<Iface, Slice>)
    requires Ready(head, base, h, b, updated)
    ensures head.Indexed() && Enumerates(Ids(head.Items()), h)
  {
    hide ContivRuleLists.View, IndexedBy, Agree, Head, Slots;
    IdsOf(head);
  }

  // ----- Both directions -----

  /** The lists of the two directions share no objects. */
  ghost predicate AllApart(hi: ContivRuleLists, bi: ContivRuleLists, he: ContivRuleLists, be: ContivRuleLists)
    reads hi, bi, he, be
  {
    Apart(hi, he) && Apart(hi, be) && Apart(bi, he) && Apart(bi, be)
  }

  /** What is sent for both directions. */
  ghost predicate IsRendered(h: Heads, bi: Lists, be: Lists, puts: Table, deletes: set<string>) {
    && (forall id :: Puts(h.ingress, bi, id) ==> Remembered(h.ingress, bi)[id].priv.Some?)
    && (forall id :: Puts(h.egress, be, id) ==> Remembered(h.egress, be)[id].priv.Some?)
    && puts == PutAcls(h.ingress, bi, Ingress) + PutAcls(h.egress, be, Egress)
    && deletes == DeletedAcls(h.ingress, bi) + DeletedAcls(h.egress, be)
  }

  ghost predicate IsSent(h: Heads, bi: Lists, be: Lists, before: Table, after: Table) {
    exists puts, deletes :: IsRendered(h, bi, be, puts, deletes) && after == (before - deletes) + puts
  }

  ghost predicate IsCommitted(head: Lists, base: Lists, order: seq<string>, after: Lists) {
    Enumerates(order, Remembered(head, base)) && after == CommitAll(base, Remembered(head, base), order)
  }

  method RenderBoth(inChanges: seq<TxnChange>, egChanges: seq<TxnChange>,
                    hi: ContivRuleLists, bi: ContivRuleLists, he: ContivRuleLists, be: ContivRuleLists,
                    ghost h: Heads, ghost inBase: Lists, ghost egBase: Lists,
                    ghost inUpdates: map<Iface, Slice>, ghost egUpdates: map<Iface, Slice>)
    returns (puts: Table, deletes: set<string>)
    requires AllApart(hi, bi, he, be)
    requires Ready(hi, bi, h.ingress, inBase, inUpdates) && PrivateKept(inBase) && AreChanges(inChanges, hi, h.ingress, inBase)
    requires Ready(he, be, h.egress, egBase, egUpdates) && PrivateKept(egBase) && AreChanges(egChanges, he, h.egress, egBase)
    modifies hi.byID.Values, he.byID.Values
    ensures Ready(hi, bi, Remembered(h.ingress, inBase), inBase, inUpdates)
    ensures Ready(he, be, Remembered(h.egress, egBase), egBase, egUpdates)
    ensures IsRendered(h, inBase, egBase, puts, deletes)
  {
    hide Ready, PrivateKept, AreChanges, Remembered, Puts, PutAcls, DeletedAcls;
    var inPuts, inDeletes := DirectionRender(inChanges, Ingress, hi, bi, h.ingress, inBase, inUpdates);
    var egPuts, egDeletes := DirectionRender(egChanges, Egress, he, be, h.egress, egBase, egUpdates);
    puts, deletes := inPuts + egPuts, inDeletes + egDeletes;
  }

  method CommitBoth(hi: ContivRuleLists, bi: ContivRuleLists, he: ContivRuleLists, be: ContivRuleLists,
                    ghost inHead: Lists, ghost egHead: Lists, ghost inBase: Lists, ghost egBase: Lists,
                    ghost inUpdates: map<Iface, Slice>, ghost egUpdates: map<Iface, Slice>,
                    ghost inOrder: seq<string>, ghost egOrder: seq<string>)
    requires Slots(hi.ruleLists, hi.numItems) && inOrder == Ids(hi.Items())
    requires Slots(he.ruleLists, he.numItems) && egOrder == Ids(he.Items())
    requires AllApart(hi, bi, he, be)
    requires Ready(hi, bi, inHead, inBase, inUpdates) && Ready(he, be, egHead, egBase, egUpdates)
    modifies bi, bi.byID.Values, hi.byID.Values, be, be.byID.Values, he.byID.Values
    ensures bi.Valid() && be.Valid() && Apart(bi, be)
    ensures Enumerates(inOrder, inHead) && bi.View() == CommitAll(inBase, inHead, inOrder)
    ensures Enumerates(egOrder, egHead) && be.View() == CommitAll(egBase, egHead, egOrder)
  {
    hide Ready, Enumerates, CommitAll, ContivRuleLists.Valid, ContivRuleLists.View, IndexedBy, Slots;
    ReadyApart(hi, bi, inHead, inBase, inUpdates);
    ReadyApart(he, be, egHead, egBase, egUpdates);
    ghost var nodes := bi.byID.Values + hi.byID.Values;
    ghost var others := be.byID.Values + he.byID.Values;
    assert nodes !! others;
    DirectionCommit(hi, bi, inHead, inBase, inUpdates, inOrder);
    assert bi.byID.Values <= nodes && be.byID.Values + he.byID.Values == others;
    assert Ready(he, be, egHead, egBase, egUpdates);
    DirectionCommit(he, be, egHead, egBase, egUpdates, egOrder);
    assert be.byID.Values <= others;
  }

  // ----- Renderer -----

  class VppAgent {
    var acls: Table

    constructor ()
      ensures acls == map[]
    {
      acls := map[];
    }

    method DumpACL() returns (dump: seq<(string, Acl)>)
      ensures Listing(dump, acls)
    {
      dump := [];
      var todo := acls.Keys;
      while todo != {}
        invariant todo <= acls.Keys && Entries(dump, acls) && Names(dump) == acls.Keys - todo && Distinct(dump)
        decreases todo
      {
        hide Names;
        var name :| name in todo;
        NamesSnoc(dump, (name, acls[name]));
        DistinctSnoc(dump, (name, acls[name]));
        dump := dump + [(name, acls[name])];
        todo := todo - {name};
      }
    }

    /** The reply says whether the transaction was applied. */
    method Send(puts: Table, deletes: set<string>, applied: bool)
      modifies this
      ensures acls == if applied then (old(acls) - deletes) + puts else old(acls)
    {
      if applied {
        acls := (acls - deletes) + puts;
      }
    }
  }

  class Renderer {
    const cache: ContivRuleCache
    const vpp: VppAgent

    ghost predicate Valid()
      reads cache, cache.ingress, cache.egress, cache.ingress.byID.Values, cache.egress.byID.Values
    {
      && cache.ingress.Valid() && cache.egress.Valid() && Apart(cache.ingress, cache.egress)
      && Allocated(cache.ingress.View(), Ingress, cache.Used(Ingress))
      && Allocated(cache.egress.View(), Egress, cache.Used(Egress))
    }

    ghost function AsState(): State
      reads cache, cache.ingress, cache.egress, cache.ingress.byID.Values, cache.egress.byID.Values, vpp
    {
      State(cache.ingress.View(), cache.egress.View(), vpp.acls)
    }

    constructor (vpp: VppAgent)
      ensures Valid() && this.vpp == vpp && AsState() == State(map[], map[], vpp.acls)
    {
      hide ContivRuleLists.Valid, ContivRuleLists.View, Allocated;
      cache := new ContivRuleCache();
      this.vpp := vpp;
      new;
      NothingAllocated(Ingress, cache.Used(Ingress));
      NothingAllocated(Egress, cache.Used(Egress));
    }

    /** Rebuilds the cache from VPP. */
    method ResyncCache(ghost s: State)
      requires Inv(s) && s.table == vpp.acls
      modifies cache
      ensures Valid() && fresh(cache.ingress) && fresh(cache.egress)
      ensures fresh(cache.ingress.byID.Values) && fresh(cache.egress.byID.Values)
      ensures cache.ingress.View() == Rebuilt(s.table, Ingress) && cache.egress.View() == Rebuilt(s.table, Egress)
      ensures cache.interfaces == InterfacesIn(Rebuilt(s.table, Ingress)) + InterfacesIn(Rebuilt(s.table, Egress))
    {
      hide *;
      var dump := vpp.DumpACL();
      var ingress, egress := DumpVppACLConfig(dump, s.table);
      RebuiltLoads(s, ingress, Ingress);
      RebuiltLoads(s, egress, Egress);
      var inOk, inLists, inUsed, inIfaces := LoadLists(ingress, Ingress);
      var egOk, egLists, egUsed, egIfaces := LoadLists(egress, Egress);
      cache.interfaces := inIfaces + egIfaces;
      cache.allocatedListIDs := map[Ingress := inUsed, Egress := egUsed];
      cache.ingress, cache.egress := inLists, egLists;
      UsedAre(inUsed, egUsed);
      Revalidate();
    }

    /** Commit.  s is the state before; it differs from what the cache holds if the renderer was
        restarted, and then the transaction has to be a resynchronisation.  If VPP does not apply
        the transaction, the cache is not committed either; otherwise VPP decides the packets of the
        configured interfaces by their rules. */
    method Commit(resync: bool, config: map<Iface, IfaceRules>, next: set<string> -> string, applied: bool, ghost s: State)
      returns (ok: bool, ghost h: Heads)
      requires Valid() && Generates(next) && ValidTxn(Txn(resync, config))
      requires Inv(s) && s.table == vpp.acls && (!resync ==> s == AsState())
      modifies vpp, cache, cache.ingress, cache.egress, cache.ingress.byID.Values, cache.egress.byID.Values
      ensures Valid() && Inv(AsState())
      ensures ok ==> Commits(s, Txn(resync, config), h, AsState())
      ensures ok ==> ConfigDecides(vpp.acls, config)
      ensures !ok ==> !applied && AsState() == State(BaseOf(s, Txn(resync, config), Ingress),
                                                     BaseOf(s, Txn(resync, config), Egress), s.table)
    {
      hide *;
      ghost var txn := Txn(resync, config);
      if resync {
        ResyncCache(s);
      }
      BaseIs(s, txn);
      var t := Prepare(resync, config, next, s, txn);
      ok, h := Finish(t, applied, s, txn);
      if ok {
        CommitDecides(s, txn, h, AsState());
        TableIs();
      }
    }

    lemma TableIs()
      requires Valid()
      ensures AsState().table == vpp.acls
    {
      hide ContivRuleLists.Valid, ContivRuleLists.View;
    }

    /** The cache transaction with all updates. */
    method Prepare(resync: bool, config: map<Iface, IfaceRules>, next: set<string> -> string, ghost s: State, ghost txn: Txn)
      returns (t: ContivRuleCacheTxn)
      requires cache.ingress.Valid() && cache.egress.Valid() && Apart(cache.ingress, cache.egress)
      requires Allocated(cache.ingress.View(), Ingress, cache.Used(Ingress)) && Allocated(cache.egress.View(), Egress, cache.Used(Egress))
      requires Generates(next) && txn == Txn(resync, config)
      requires resync ==> cache.interfaces == InterfacesIn(Rebuilt(s.table, Ingress)) + InterfacesIn(Rebuilt(s.table, Egress))
      modifies cache`allocatedListIDs
      ensures t.cache == cache && t.Valid(Updates(s, txn, Ingress), Updates(s, txn, Egress))
      ensures fresh(t) && fresh(t.ingress) && fresh(t.egress) && fresh(t.ingress.byID.Values) && fresh(t.egress.byID.Values)
      ensures cache.ingress.View() == old(cache.ingress.View()) && cache.egress.View() == old(cache.egress.View())
    {
      hide *;
      t := new ContivRuleCacheTxn(cache);
      UpdateAll(t, resync, config, next, s, txn);
    }

    lemma BaseIs(s: State, txn: Txn)
      requires Valid() && (!txn.resync ==> s == AsState())
      requires txn.resync ==> cache.ingress.View() == Rebuilt(s.table, Ingress) && cache.egress.View() == Rebuilt(s.table, Egress)
      ensures cache.ingress.View() == BaseOf(s, txn, Ingress) && cache.egress.View() == BaseOf(s, txn, Egress)
      ensures cache.ingress.Valid() && cache.egress.Valid() && Apart(cache.ingress, cache.egress)
      ensures Allocated(cache.ingress.View(), Ingress, cache.Used(Ingress)) && Allocated(cache.egress.View(), Egress, cache.Used(Egress))
    {
      hide ContivRuleLists.Valid, ContivRuleLists.View, Allocated, Rebuilt;
    }

    /** Diff, rendering and commit of the prepared transaction. */
    method Finish(t: ContivRuleCacheTxn, applied: bool, ghost s: State, ghost txn: Txn) returns (ok: bool, ghost h: Heads)
      requires t.cache == cache && t.Valid(Updates(s, txn, Ingress), Updates(s, txn, Egress))
      requires cache.ingress.View() == BaseOf(s, txn, Ingress) && cache.egress.View() == BaseOf(s, txn, Egress)
      requires Inv(s) && ValidTxn(txn) && s.table == vpp.acls
      modifies vpp, cache`interfaces, cache.ingress, cache.egress, cache.ingress.byID.Values, cache.egress.byID.Values
      modifies t.ingress.byID.Values, t.egress.byID.Values
      ensures Valid() && Inv(AsState())
      ensures ok ==> Commits(s, txn, h, AsState())
      ensures !ok ==> !applied && AsState() == State(BaseOf(s, txn, Ingress), BaseOf(s, txn, Egress), s.table)
    {
      hide *;
      HeadsIndexed(t, Updates(s, txn, Ingress), Updates(s, txn, Egress));
      h := Heads(t.ingress.View(), t.egress.View(), Ids(t.ingress.Items()), Ids(t.egress.Items()));
      ghost var inBase, egBase := cache.ingress.View(), cache.egress.View();
      ghost var inUpdates, egUpdates := Updates(s, txn, Ingress), Updates(s, txn, Egress);
      FinishReady(t, s, txn, h);
      var inChanges := DirectionChanges(t.ingress, cache.ingress, h.ingress, inBase, inUpdates);
      var egChanges := DirectionChanges(t.egress, cache.egress, h.egress, egBase, egUpdates);
      if inChanges == [] && egChanges == [] {
        StateIs();
        FinishSkip(s, txn, h);
        return true, h;
      }
      ok := SendAndCommit(t, applied, inChanges, egChanges, h, inBase, egBase, inUpdates, egUpdates);
      StateIs();
      if ok {
        FinishCommit(s, txn, h);
      } else {
        FinishFailed(s, txn);
      }
    }

    method SendAndCommit(t: ContivRuleCacheTxn, applied: bool, inChanges: seq<TxnChange>, egChanges: seq<TxnChange>, ghost h: Heads,
                ghost inBase: Lists, ghost egBase: Lists,
                ghost inUpdates: map<Iface, Slice>, ghost egUpdates: map<Iface, Slice>) returns (ok: bool)
      requires t.cache == cache && AllApart(t.ingress, cache.ingress, t.egress, cache.egress) && Valid()
      requires Ready(t.ingress, cache.ingress, h.ingress, inBase, inUpdates) && PrivateKept(inBase)
      requires Ready(t.egress, cache.egress, h.egress, egBase, egUpdates) && PrivateKept(egBase)
      requires AreChanges(inChanges, t.ingress, h.ingress, inBase) && AreChanges(egChanges, t.egress, h.egress, egBase)
      requires Allocated(h.ingress, Ingress, cache.Used(Ingress)) && Allocated(h.egress, Egress, cache.Used(Egress))
      requires Slots(t.ingress.ruleLists, t.ingress.numItems) && h.ingressOrder == Ids(t.ingress.Items())
      requires Slots(t.egress.ruleLists, t.egress.numItems) && h.egressOrder == Ids(t.egress.Items())
      modifies vpp, cache`interfaces, cache.ingress, cache.egress, cache.ingress.byID.Values, cache.egress.byID.Values
      modifies t.ingress.byID.Values, t.egress.byID.Values
      ensures ok == applied && Valid()
      ensures !ok ==> vpp.acls == old(vpp.acls) && cache.ingress.View() == inBase && cache.egress.View() == egBase
      ensures ok ==> IsSent(h, inBase, egBase, old(vpp.acls), vpp.acls)
      ensures ok ==> IsCommitted(h.ingress, inBase, h.ingressOrder, cache.ingress.View())
      ensures ok ==> IsCommitted(h.egress, egBase, h.egressOrder, cache.egress.View())
    {
      hide *;
      BasesAllocated(t, h, inBase, egBase, inUpdates, egUpdates);
      RenderAndSend(t, applied, inChanges, egChanges, h, inBase, egBase, inUpdates, egUpdates);
      if !applied {
        ReadyBase(t.ingress, cache.ingress, Remembered(h.ingress, inBase), inBase, inUpdates);
        ReadyBase(t.egress, cache.egress, Remembered(h.egress, egBase), egBase, egUpdates);
        BasesApart(t);
        Revalidate();
        return false;
      }
      CommitCache(t, h, inBase, egBase, inUpdates, egUpdates);
      ok := true;
    }

    /** The ACL transaction, sent to VPP as a whole. */
    method RenderAndSend(t: ContivRuleCacheTxn, applied: bool, inChanges: seq<TxnChange>, egChanges: seq<TxnChange>, ghost h: Heads,
                         ghost inBase: Lists, ghost egBase: Lists,
                         ghost inUpdates: map<Iface, Slice>, ghost egUpdates: map<Iface, Slice>)
      requires AllApart(t.ingress, cache.ingress, t.egress, cache.egress)
      requires Ready(t.ingress, cache.ingress, h.ingress, inBase, inUpdates) && PrivateKept(inBase)
      requires Ready(t.egress, cache.egress, h.egress, egBase, egUpdates) && PrivateKept(egBase)
      requires AreChanges(inChanges, t.ingress, h.ingress, inBase) && AreChanges(egChanges, t.egress, h.egress, egBase)
      modifies vpp, t.ingress.byID.Values, t.egress.byID.Values
      ensures Ready(t.ingress, cache.ingress, Remembered(h.ingress, inBase), inBase, inUpdates)
      ensures Ready(t.egress, cache.egress, Remembered(h.egress, egBase), egBase, egUpdates)
      ensures if applied then IsSent(h, inBase, egBase, old(vpp.acls), vpp.acls) else vpp.acls == old(vpp.acls)
    {
      hide *;
      var puts, deletes := RenderBoth(inChanges, egChanges, t.ingress, cache.ingress, t.egress, cache.egress, h,
                                      inBase, egBase, inUpdates, egUpdates);
      SentIs(h, inBase, egBase, vpp.acls, puts, deletes);
      vpp.Send(puts, deletes, applied);
    }

    /** Commit of the cache transaction. */
    method CommitCache(t: ContivRuleCacheTxn, ghost h: Heads, ghost inBase: Lists, ghost egBase: Lists,
                       ghost inUpdates: map<Iface, Slice>, ghost egUpdates: map<Iface, Slice>)
      requires t.cache == cache && AllApart(t.ingress, cache.ingress, t.egress, cache.egress)
      requires Ready(t.ingress, cache.ingress, Remembered(h.ingress, inBase), inBase, inUpdates)
      requires Ready(t.egress, cache.egress, Remembered(h.egress, egBase), egBase, egUpdates)
      requires Allocated(h.ingress, Ingress, cache.Used(Ingress)) && Allocated(h.egress, Egress, cache.Used(Egress))
      requires Allocated(inBase, Ingress, cache.Used(Ingress)) && Allocated(egBase, Egress, cache.Used(Egress))
      requires Slots(t.ingress.ruleLists, t.ingress.numItems) && h.ingressOrder == Ids(t.ingress.Items())
      requires Slots(t.egress.ruleLists, t.egress.numItems) && h.egressOrder == Ids(t.egress.Items())
      modifies cache`interfaces, cache.ingress, cache.egress, cache.ingress.byID.Values, cache.egress.byID.Values
      modifies t.ingress.byID.Values, t.egress.byID.Values
      ensures Valid() && IsCommitted(h.ingress, inBase, h.ingressOrder, cache.ingress.View())
      ensures IsCommitted(h.egress, egBase, h.egressOrder, cache.egress.View())
    {
      hide *;
      ReadyAllocated(t.ingress, cache.ingress, h.ingress, inBase, inUpdates, Ingress, cache.Used(Ingress));
      ReadyAllocated(t.egress, cache.egress, h.egress, egBase, egUpdates, Egress, cache.Used(Egress));
      CommitBoth(t.ingress, cache.ingress, t.egress, cache.egress, Remembered(h.ingress, inBase), Remembered(h.egress, egBase),
                 inBase, egBase, inUpdates, egUpdates, h.ingressOrder, h.egressOrder);
      cache.interfaces := cache.interfaces + t.interfaces;
      CommittedIs(h.ingress, inBase, h.ingressOrder, cache.ingress.View());
      CommittedIs(h.egress, egBase, h.egressOrder, cache.egress.View());
      Revalidate();
    }

    lemma BasesApart(t: ContivRuleCacheTxn)
      requires AllApart(t.ingress, cache.ingress, t.egress, cache.egress)
      ensures Apart(cache.ingress, cache.egress)
    {
    }

    lemma FinishFailed(s: State, txn: Txn)
      requires Inv(s) && ValidTxn(txn)
      requires AsState() == State(BaseOf(s, txn, Ingress), BaseOf(s, txn, Egress), s.table)
      ensures Inv(AsState())
    {
      hide BaseOf, GoodLists, TableOf, RulesOf;
      BaseGood(s, txn, Ingress);
      BaseGood(s, txn, Egress);
    }

    lemma StateIs()
      ensures AsState() == State(cache.ingress.View(), cache.egress.View(), vpp.acls)
    {
    }

    lemma FinishReady(t: ContivRuleCacheTxn, s: State, txn: Txn, h: Heads)
      requires t.cache == cache && t.Valid(Updates(s, txn, Ingress), Updates(s, txn, Egress))
      requires cache.ingress.View() == BaseOf(s, txn, Ingress) && cache.egress.View() == BaseOf(s, txn, Egress)
      requires Inv(s) && ValidTxn(txn) && t.ingress.Indexed() && t.egress.Indexed()
      requires h == Heads(t.ingress.View(), t.egress.View(), Ids(t.ingress.Items()), Ids(t.egress.Items()))
      ensures AllApart(t.ingress, cache.ingress, t.egress, cache.egress) && Valid()
      ensures Ready(t.ingress, cache.ingress, h.ingress, cache.ingress.View(), Updates(s, txn, Ingress))
      ensures Ready(t.egress, cache.egress, h.egress, cache.egress.View(), Updates(s, txn, Egress))
      ensures PrivateKept(cache.ingress.View()) && PrivateKept(cache.egress.View())
      ensures ValidHead(s, txn, h, Ingress) && ValidHead(s, txn, h, Egress)
      ensures Allocated(h.ingress, Ingress, cache.Used(Ingress)) && Allocated(h.egress, Egress, cache.Used(Egress))
    {
      hide ContivRuleLists.Valid, ContivRuleLists.View, ContivRuleLists.Indexed, Allocated, Head, BaseOf, Updates,
           Inv, PrivateKept, Named, Slots;
      BaseGood(s, txn, Ingress);
      BaseGood(s, txn, Egress);
      ReadyOrder(t.ingress, cache.ingress, h.ingress, cache.ingress.View(), Updates(s, txn, Ingress));
      ReadyOrder(t.egress, cache.egress, h.egress, cache.egress.View(), Updates(s, txn, Egress));
      AllocatedNamed(h.ingress, Ingress, cache.Used(Ingress));
      AllocatedNamed(h.egress, Egress, cache.Used(Egress));
    }

    lemma FinishSkip(s: State, txn: Txn, h: Heads)
      requires ValidHead(s, txn, h, Ingress) && ValidHead(s, txn, h, Egress) && Inv(s) && ValidTxn(txn)
      requires AsState() == State(BaseOf(s, txn, Ingress), BaseOf(s, txn, Egress), s.table)
      requires forall id :: !Changed(h.ingress, BaseOf(s, txn, Ingress), id)
      requires forall id :: !Changed(h.egress, BaseOf(s, txn, Egress), id)
      ensures Commits(s, txn, h, AsState()) && Inv(AsState())
    {
      hide Inv, ValidHead, BaseOf, Changed;
      assert NothingToRender(s, txn, h);
      CommitKeeps(s, txn, h, AsState(), Ingress, "");
    }

    lemma FinishCommit(s: State, txn: Txn, h: Heads)
      requires ValidHead(s, txn, h, Ingress) && ValidHead(s, txn, h, Egress) && Inv(s) && ValidTxn(txn)
      requires !(forall id :: !Changed(h.ingress, BaseOf(s, txn, Ingress), id)) ||
               !(forall id :: !Changed(h.egress, BaseOf(s, txn, Egress), id))
      requires IsSent(h, BaseOf(s, txn, Ingress), BaseOf(s, txn, Egress), s.table, AsState().table)
      requires IsCommitted(h.ingress, BaseOf(s, txn, Ingress), h.ingressOrder, AsState().ingress)
      requires IsCommitted(h.egress, BaseOf(s, txn, Egress), h.egressOrder, AsState().egress)
      ensures Commits(s, txn, h, AsState()) && Inv(AsState())
    {
      hide Inv, ValidHead, BaseOf, Changed, CommitAll, Remembered, PutAcls, DeletedAcls, Enumerates;
      assert HeadOf(h, Ingress) == h.ingress && HeadOf(h, Egress) == h.egress;
      assert !NothingToRender(s, txn, h);
      assert (s.table - DeletesOf(s, txn, h)) + (PutsOf(s, txn, h, Ingress) + PutsOf(s, txn, h, Egress)) ==
             (s.table - DeletesOf(s, txn, h)) + PutsOf(s, txn, h, Ingress) + PutsOf(s, txn, h, Egress);
      CommitKeeps(s, txn, h, AsState(), Ingress, "");
    }

    lemma UsedAre(inUsed: set<string>, egUsed: set<string>)
      requires cache.allocatedListIDs == map[Ingress := inUsed, Egress := egUsed]
      ensures cache.Used(Ingress) == inUsed && cache.Used(Egress) == egUsed
    {
    }

    lemma Revalidate()
      requires cache.ingress.Valid() && cache.egress.Valid() && (Apart(cache.ingress, cache.egress) ||
               (cache.ingress != cache.egress && cache.ingress.byID.Values !! cache.egress.byID.Values))
      requires Allocated(cache.ingress.View(), Ingress, cache.Used(Ingress))
      requires Allocated(cache.egress.View(), Egress, cache.Used(Egress))
      ensures Valid()
    {
      hide ContivRuleLists.Valid, ContivRuleLists.View, Allocated;
    }

    lemma BasesAllocated(t: ContivRuleCacheTxn, h: Heads, inBase: Lists, egBase: Lists,
                         inUpdates: map<Iface, Slice>, egUpdates: map<Iface, Slice>)
      requires Valid()
      requires Ready(t.ingress, cache.ingress, h.ingress, inBase, inUpdates)
      requires Ready(t.egress, cache.egress, h.egress, egBase, egUpdates)
      ensures Allocated(inBase, Ingress, cache.Used(Ingress)) && Allocated(egBase, Egress, cache.Used(Egress))
    {
      hide ContivRuleLists.Valid, ContivRuleLists.View, Allocated, Head;
    }
  }

  /** The committed lists keep their allocated IDs. */
  lemma ReadyAllocated(head: ContivRuleLists, base: ContivRuleLists, h: Lists, b: Lists, updated: map<Iface, Slice>,
                       d: Direction, used: set<string>)
    requires Ready(head, base, Remembered(h, b), b, updated) && Allocated(h, d, used) && Allocated(b, d, used)
    ensures forall order :: Enumerates(order, Remembered(h, b)) ==> Allocated(CommitAll(b, Remembered(h, b), order), d, used)
  {
    hide ContivRuleLists.Valid, ContivRuleLists.View, HeadLists, HeadUpdated, HeadKeeps, Remembered, CommitAll,
         HasName, DirName;
    RememberedKeys(h, b);
    forall order | Enumerates(order, Remembered(h, b)) ensures Allocated(CommitAll(b, Remembered(h, b), order), d, used) {
      CommitAllCommits(b, Remembered(h, b), order);
    }
  }

  lemma RebuiltLoads(s: State, lists: seq<(string, Entry)>, d: Direction)
    requires Inv(s) && Listing(lists, Rebuilt(s.table, d))
    ensures Load(lists, d) == Some(Rebuilt(s.table, d))
  {
    hide Inv, Wf, PrivateKept, CanonicalLists, HasName, TableOf, Listing;
    RebuiltGood(s, d);
    LoadExact(lists, Rebuilt(s.table, d), d);
  }

  // ----- Updates of a transaction -----

  function Part(txn: Txn, d: Direction, done: set<Iface>): map<Iface, Slice> {
    map i | i in done :: if i in txn.config then ConfigOf(txn, i, d) else Some([])
  }

  lemma PartMore(txn: Txn, d: Direction, done: set<Iface>, i: Iface)
    ensures Part(txn, d, done)[i := if i in txn.config then ConfigOf(txn, i, d) else Some([])] == Part(txn, d, done + {i})
    ensures Part(txn, d, done).Keys == done
  {
  }

  /** Every configured interface is updated, and a resync empties all other known ones. */
  method UpdateAll(t: ContivRuleCacheTxn, resync: bool, config: map<Iface, IfaceRules>, next: set<string> -> string,
                   ghost s: State, ghost txn: Txn)
    requires t.Valid(map[], map[]) && Generates(next) && txn == Txn(resync, config)
    requires resync ==> t.cache.interfaces == InterfacesIn(Rebuilt(s.table, Ingress)) + InterfacesIn(Rebuilt(s.table, Egress))
    modifies t, t.cache`allocatedListIDs, t.ingress, t.ingress.byID.Values, t.egress, t.egress.byID.Values
    ensures t.Valid(Updates(s, txn, Ingress), Updates(s, txn, Egress))
    ensures t.cache.ingress.View() == old(t.cache.ingress.View()) && t.cache.egress.View() == old(t.cache.egress.View())
    ensures fresh(t.ingress.byID.Values - old(t.ingress.byID.Values)) && fresh(t.egress.byID.Values - old(t.egress.byID.Values))
  {
    hide *;
    UpdateConfigured(t, config, next, txn);
    ghost var known := if resync then t.cache.interfaces else {};
    PartIsUpdates(s, txn, known);
    assert config.Keys + {} == config.Keys;
    if resync {
      EmptyOthers(t, config, next, txn);
    }
  }

  method UpdateConfigured(t: ContivRuleCacheTxn, config: map<Iface, IfaceRules>, next: set<string> -> string, ghost txn: Txn)
    requires t.Valid(map[], map[]) && Generates(next) && txn.config == config
    modifies t, t.cache`allocatedListIDs, t.ingress, t.ingress.byID.Values, t.egress, t.egress.byID.Values
    ensures t.Valid(Part(txn, Ingress, config.Keys), Part(txn, Egress, config.Keys))
    ensures t.cache.ingress.View() == old(t.cache.ingress.View()) && t.cache.egress.View() == old(t.cache.egress.View())
    ensures fresh(t.ingress.byID.Values - old(t.ingress.byID.Values)) && fresh(t.egress.byID.Values - old(t.egress.byID.Values))
  {
    hide *;
    var todo := config.Keys;
    ghost var inBase, egBase := t.cache.ingress.View(), t.cache.egress.View();
    PartNothing(txn);
    assert config.Keys - todo == {};
    while todo != {}
      invariant todo <= config.Keys && t.cache.ingress.View() == inBase && t.cache.egress.View() == egBase
      invariant t.Valid(Part(txn, Ingress, config.Keys - todo), Part(txn, Egress, config.Keys - todo))
      invariant fresh(t.ingress.byID.Values - old(t.ingress.byID.Values)) && fresh(t.egress.byID.Values - old(t.egress.byID.Values))
      decreases todo
    {
      var i :| i in todo;
      ghost var done := config.Keys - todo;
      UpdatePart(t, i, config[i].ingress, config[i].egress, next, txn, done);
      todo := todo - {i};
      assert config.Keys - todo == done + {i};
    }
    assert config.Keys - todo == config.Keys;
  }

  /** Interfaces that the transaction does not mention. */
  method EmptyOthers(t: ContivRuleCacheTxn, config: map<Iface, IfaceRules>, next: set<string> -> string, ghost txn: Txn)
    requires t.Valid(Part(txn, Ingress, config.Keys), Part(txn, Egress, config.Keys)) && Generates(next) && txn.config == config
    modifies t, t.cache`allocatedListIDs, t.ingress, t.ingress.byID.Values, t.egress, t.egress.byID.Values
    ensures t.Valid(Part(txn, Ingress, config.Keys + t.cache.interfaces), Part(txn, Egress, config.Keys + t.cache.interfaces))
    ensures t.cache.interfaces == old(t.cache.interfaces)
    ensures t.cache.ingress.View() == old(t.cache.ingress.View()) && t.cache.egress.View() == old(t.cache.egress.View())
    ensures fresh(t.ingress.byID.Values - old(t.ingress.byID.Values)) && fresh(t.egress.byID.Values - old(t.egress.byID.Values))
  {
    hide *;
    var todo := t.cache.interfaces;
    ghost var known, inBase, egBase := t.cache.interfaces, t.cache.ingress.View(), t.cache.egress.View();
    assert config.Keys + (known - todo) == config.Keys;
    while todo != {}
      invariant todo <= t.cache.interfaces == known && t.cache.ingress.View() == inBase && t.cache.egress.View() == egBase
      invariant t.Valid(Part(txn, Ingress, config.Keys + (known - todo)), Part(txn, Egress, config.Keys + (known - todo)))
      invariant fresh(t.ingress.byID.Values - old(t.ingress.byID.Values)) && fresh(t.egress.byID.Values - old(t.egress.byID.Values))
      decreases todo
    {
      var i :| i in todo;
      ghost var done := config.Keys + (known - todo);
      InterfacesAre(t, txn, done);
      if i !in t.interfaces {
        UpdatePart(t, i, Some([]), Some([]), next, txn, done);
      }
      todo := todo - {i};
      assert config.Keys + (known - todo) == done + {i};
      assert i in done ==> done + {i} == done;
    }
    assert known - todo == known;
  }

  method UpdatePart(t: ContivRuleCacheTxn, i: Iface, ingress: Slice, egress: Slice, next: set<string> -> string,
                    ghost txn: Txn, ghost done: set<Iface>)
    requires t.Valid(Part(txn, Ingress, done), Part(txn, Egress, done)) && Generates(next)
    requires IfaceRules(ingress, egress) == if i in txn.config then txn.config[i] else IfaceRules(Some([]), Some([]))
    modifies t, t.cache`allocatedListIDs, t.ingress, t.ingress.byID.Values, t.egress, t.egress.byID.Values
    ensures t.Valid(Part(txn, Ingress, done + {i}), Part(txn, Egress, done + {i}))
    ensures fresh(t.ingress.byID.Values - old(t.ingress.byID.Values)) && fresh(t.egress.byID.Values - old(t.egress.byID.Values))
    ensures t.cache.ingress.View() == old(t.cache.ingress.View()) && t.cache.egress.View() == old(t.cache.egress.View())
  {
    hide ContivRuleCacheTxn.Valid, Generates, Part, ContivRuleLists.View;
    PartMore(txn, Ingress, done, i);
    PartMore(txn, Egress, done, i);
    t.Update(i, ingress, egress, next, Part(txn, Ingress, done), Part(txn, Egress, done));
  }

  lemma PartNothing(txn: Txn)
    ensures Part(txn, Ingress, {}) == map[] && Part(txn, Egress, {}) == map[]
  {
  }

  lemma InterfacesAre(t: ContivRuleCacheTxn, txn: Txn, done: set<Iface>)
    requires t.Valid(Part(txn, Ingress, done), Part(txn, Egress, done))
    ensures t.interfaces == done
  {
    hide ContivRuleCacheTxn.Overlays;
    PartMore(txn, Ingress, done, "");
  }

  lemma PartIsUpdates(s: State, txn: Txn, known: set<Iface>)
    requires known == if txn.resync then InterfacesIn(Rebuilt(s.table, Ingress)) + InterfacesIn(Rebuilt(s.table, Egress)) else {}
    ensures forall d :: Part(txn, d, txn.config.Keys + known) == Updates(s, txn, d)
  {
    hide Rebuilt, InterfacesIn;
  }

  lemma AllocatedNamed(v: Lists, d: Direction, used: set<string>)
    requires Allocated(v, d, used)
    ensures Named(v, d)
  {
  }

  lemma HeadsIndexed(t: ContivRuleCacheTxn, inUpdates: map<Iface, Slice>, egUpdates: map<Iface, Slice>)
    requires t.Valid(inUpdates, egUpdates)
    ensures t.ingress.Indexed() && Slots(t.ingress.ruleLists, t.ingress.numItems)
    ensures t.egress.Indexed() && Slots(t.egress.ruleLists, t.egress.numItems)
  {
    hide ContivRuleLists.Assigned, IndexedBy, Slots, Head, Allocated;
  }

  lemma SentIs(h: Heads, bi: Lists, be: Lists, before: Table, puts: Table, deletes: set<string>)
    requires IsRendered(h, bi, be, puts, deletes)
    ensures IsSent(h, bi, be, before, (before - deletes) + puts)
  {
    hide IsRendered;
  }

  lemma CommittedIs(head: Lists, base: Lists, order: seq<string>, after: Lists)
    requires Enumerates(order, Remembered(head, base)) && after == CommitAll(base, Remembered(head, base), order)
    ensures IsCommitted(head, base, order, after)
  {
  }
}
