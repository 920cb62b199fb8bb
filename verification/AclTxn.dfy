/** Commit of an ACL renderer transaction on the objects of the cache
    (plugins/policy/renderer/acl/acl_renderer.go, plugins/policy/renderer/acl/cache/cache_impl.go). */
module AclTxn {
  import opened Base
  import opened VppAcl
  import opened AclLists
  import opened AclRuleLists
  import opened AclCache
  import opened AclRenderer
  import opened AclRuns

  // ----- Rendering of changes -----

  /** The head after the changes of some lists were rendered. */
  ghost function RememberedSome(head: Lists, base: Lists, done: set<string>): Lists {
    map id | id in head ::
      if id in done && IsNewAcl(head, base, id) then head[id].(priv := Some(Body(id, head[id].rules))) else head[id]
  }

  ghost predicate IsChange(c: TxnChange, lists: ContivRuleLists, head: Lists, base: Lists)
    reads lists`byID
  {
    lists.Has(c.list) && c.previous == Previous(base, c.list.id) && Changed(head, base, c.list.id)
  }

  /** Each renderable change once. */
  ghost predicate AreChanges(changes: seq<TxnChange>, lists: ContivRuleLists, head: Lists, base: Lists)
    reads lists`byID
  {
    && (forall k :: 0 <= k < |changes| ==> IsChange(changes[k], lists, head, base))
    && (forall id :: Changed(head, base, id) ==> exists k :: 0 <= k < |changes| && changes[k].list.id == id)
    && (forall j, k :: 0 <= j < k < |changes| ==> changes[j].list.id != changes[k].list.id)
  }

  /** filterEmpty */
  method FilterEmpty(changes: seq<TxnChange>) returns (filtered: seq<TxnChange>)
    ensures forall c :: c in filtered <==> c in changes && Contents(c.list.rules) != []
    ensures (forall j, k :: 0 <= j < k < |changes| ==> changes[j].list != changes[k].list) ==>
              forall j, k :: 0 <= j < k < |filtered| ==> filtered[j].list != filtered[k].list
  {
    hide Contents;
    filtered := [];
    for n := 0 to |changes|
      invariant forall c :: c in filtered <==> c in changes[..n] && Contents(c.list.rules) != []
      invariant (forall j, k :: 0 <= j < k < |changes| ==> changes[j].list != changes[k].list) ==>
                  forall j, k :: 0 <= j < k < |filtered| ==> filtered[j].list != filtered[k].list
    {
      assert changes[..n + 1] == changes[..n] + [changes[n]];
      if |Contents(changes[n].list.rules)| > 0 {
        assert forall k :: 0 <= k < |filtered| ==> filtered[k] in changes[..n];
        filtered := filtered + [changes[n]];
      }
    }
    assert changes[..|changes|] == changes;
  }

  ghost predicate PutsSome(head: Lists, d: Direction, done: set<string>, puts: Table) {
    && (forall id :: id in puts <==> id in done && id in head && head[id].ifaces != {})
    && (forall id :: id in puts ==> puts[id] == Acl(RenderAll(Contents(head[id].rules)), RenderInterfaces(head[id].ifaces, d)))
  }

  ghost predicate DeletesSome(head: Lists, done: set<string>, deletes: set<string>) {
    forall id :: id in deletes <==> id in done && id in head && head[id].ifaces == {}
  }

  lemma RememberStep(head: Lists, base: Lists, done: set<string>, id: string)
    requires HeadLists(head, base) && PrivateKept(base) && Changed(head, base, id) && id !in done
    ensures var r := RememberedSome(head, base, done);
            && id in r && r[id] == head[id]
            && RememberedSome(head, base, done + {id}) ==
               if Previous(base, id) == {} then r[id := r[id].(priv := Some(Body(id, head[id].rules)))] else r
    ensures id in head && (Previous(base, id) == {} ==> head[id].ifaces != {})
    ensures Previous(base, id) != {} ==> head[id].priv == Some(Body(id, head[id].rules))
  {
    hide RenderAll, Wf, HasRules;
    assert IsNewAcl(head, base, id) <==> Previous(base, id) == {};
    var r, n := RememberedSome(head, base, done), RememberedSome(head, base, done + {id});
    assert forall x :: x in head && x != id ==> r[x] == n[x];
  }

  lemma SentStep(head: Lists, d: Direction, done: set<string>, puts: Table, deletes: set<string>, id: string)
    requires PutsSome(head, d, done, puts) && DeletesSome(head, done, deletes) && id in head && id !in done
    ensures if head[id].ifaces != {} then
              && PutsSome(head, d, done + {id},
                          puts[id := Acl(RenderAll(Contents(head[id].rules)), RenderInterfaces(head[id].ifaces, d))])
              && DeletesSome(head, done + {id}, deletes)
            else PutsSome(head, d, done + {id}, puts) && DeletesSome(head, done + {id}, deletes + {id})
  {
    hide RenderAll, RenderInterfaces;
  }

  /** renderChanges for one change. */
  method RenderChange(change: TxnChange, d: Direction, lists: ContivRuleLists, puts: Table, deletes: set<string>,
                      ghost head: Lists, ghost base: Lists, ghost done: set<string>)
    returns (puts': Table, deletes': set<string>)
    requires lists.Valid() && lists.View() == RememberedSome(head, base, done)
    requires IsChange(change, lists, head, base) && change.list.id !in done
    requires HeadLists(head, base) && PrivateKept(base)
    requires PutsSome(head, d, done, puts) && DeletesSome(head, done, deletes)
    modifies lists.byID.Values
    ensures lists.Valid() && lists.View() == RememberedSome(head, base, done + {change.list.id})
    ensures PutsSome(head, d, done + {change.list.id}, puts') && DeletesSome(head, done + {change.list.id}, deletes')
  {
    hide RenderAll, RenderInterfaces, ContivRuleLists.Valid, ContivRuleLists.View, HeadLists, PrivateKept,
         RememberedSome, PutsSome, DeletesSome, Changed;
    puts', deletes' := puts, deletes;
    var list := change.list;
    lists.ViewAt(list);
    RememberStep(head, base, done, list.id);
    SentStep(head, d, done, puts, deletes, list.id);
    if change.previous == {} {
      // New ACL
      var body := RenderRules(list.rules);
      lists.SetPrivate(list, Some(AclBody(list.id, body)));
      puts' := puts[list.id := Acl(body, RenderInterfaces(list.interfaces, d))];
    } else if list.interfaces != {} {
      // Changed interfaces
      puts' := puts[list.priv.value.name := Acl(list.priv.value.rules, RenderInterfaces(list.interfaces, d))];
    } else {
      // Removed ACL
      deletes' := deletes + {list.priv.value.name};
    }
  }

  /** renderChanges: sends exactly the puts and deletes of the direction. */
  method RenderChanges(changes: seq<TxnChange>, d: Direction, lists: ContivRuleLists, ghost base: Lists)
    returns (puts: Table, deletes: set<string>)
    requires lists.Valid() && HeadLists(lists.View(), base) && PrivateKept(base)
    requires AreChanges(changes, lists, lists.View(), base)
    modifies lists.byID.Values
    ensures lists.Valid() && lists.View() == Remembered(old(lists.View()), base)
    ensures forall id :: Puts(old(lists.View()), base, id) ==> Remembered(old(lists.View()), base)[id].priv.Some?
    ensures puts == PutAcls(old(lists.View()), base, d) && deletes == DeletedAcls(old(lists.View()), base)
  {
    hide *;
    ghost var head := lists.View();
    ghost var done: set<string> := {};
    puts, deletes := map[], {};
    NothingSent(head, base, d);
    ChangesDistinct(changes, lists, head, base);
    for k := 0 to |changes|
      invariant lists.Valid() && lists.View() == RememberedSome(head, base, done)
      invariant PutsSome(head, d, done, puts) && DeletesSome(head, done, deletes)
      invariant forall id :: id in done <==> exists j :: 0 <= j < k && changes[j].list.id == id
    {
      puts, deletes := RenderChange(changes[k], d, lists, puts, deletes, head, base, done);
      done := done + {changes[k].list.id};
    }
    AllSent(head, base, d, done, puts, deletes, changes, lists);
  }

  lemma NothingSent(head: Lists, base: Lists, d: Direction)
    ensures RememberedSome(head, base, {}) == head && PutsSome(head, d, {}, map[]) && DeletesSome(head, {}, {})
  {
  }

  lemma ChangesDistinct(changes: seq<TxnChange>, lists: ContivRuleLists, head: Lists, base: Lists)
    requires AreChanges(changes, lists, head, base)
    ensures forall k :: 0 <= k < |changes| ==> IsChange(changes[k], lists, head, base)
    ensures forall j, k :: 0 <= j < k < |changes| ==> changes[j].list.id != changes[k].list.id
  {
  }

  lemma AllSent(head: Lists, base: Lists, d: Direction, done: set<string>, puts: Table, deletes: set<string>,
                changes: seq<TxnChange>, lists: ContivRuleLists)
    requires HeadLists(head, base) && PrivateKept(base) && AreChanges(changes, lists, head, base)
    requires forall id :: id in done <==> exists j :: 0 <= j < |changes| && changes[j].list.id == id
    requires PutsSome(head, d, done, puts) && DeletesSome(head, done, deletes)
    ensures RememberedSome(head, base, done) == Remembered(head, base)
    ensures forall id :: Puts(head, base, id) ==> Remembered(head, base)[id].priv.Some?
    ensures puts == PutAcls(head, base, d) && deletes == DeletedAcls(head, base)
  {
    hide RenderAll, RenderInterfaces, HeadLists, PrivateKept, AreChanges, Remembered, Changed, PutsSome;
    RememberedPrivate(head, base);
    RememberedKeys(head, base);
    DoneIsChanged(head, base, done, changes, lists);
    RememberedAll(head, base, done);
    PutsAll(head, base, d, done, puts);
    assert forall id :: Changed(head, base, id) ==> id in head by { ChangedInHead(head, base); }
  }

  lemma ChangedInHead(head: Lists, base: Lists)
    ensures forall id :: Changed(head, base, id) ==> id in head
  {
  }

  lemma DoneIsChanged(head: Lists, base: Lists, done: set<string>, changes: seq<TxnChange>, lists: ContivRuleLists)
    requires AreChanges(changes, lists, head, base)
    requires forall id :: id in done <==> exists j :: 0 <= j < |changes| && changes[j].list.id == id
    ensures forall id :: id in done <==> Changed(head, base, id)
  {
    forall id ensures id in done <==> Changed(head, base, id) {
      if id in done {
        var j :| 0 <= j < |changes| && changes[j].list.id == id;
        assert IsChange(changes[j], lists, head, base);
      }
    }
  }

  lemma RememberedAll(head: Lists, base: Lists, done: set<string>)
    requires forall id :: id in done <==> Changed(head, base, id)
    ensures RememberedSome(head, base, done) == Remembered(head, base)
  {
    hide Changed;
  }

  lemma PutsAll(head: Lists, base: Lists, d: Direction, done: set<string>, puts: Table)
    requires forall id :: id in done <==> Changed(head, base, id)
    requires forall id :: Changed(head, base, id) ==> Remembered(head, base)[id].priv == Some(Body(id, head[id].rules))
    requires PutsSome(head, d, done, puts)
    ensures puts == PutAcls(head, base, d)
  {
    hide RenderAll, RenderInterfaces, Remembered;
    ChangedInHead(head, base);
    hide Changed;
    assert puts == PutAcls(head, base, d);
  }

  // ----- Cache and cache transaction -----

  /** IDs are a direction and an allocated suffix. */
  ghost predicate Allocated(v: Lists, d: Direction, used: set<string>) {
    forall id :: id in v ==> HasName(id, d) && id[|DirName(d)|..] in used
  }

  /** The random generator draws until the suffix is unused. */
  ghost predicate Generates(next: set<string> -> string) {
    forall used :: next(used) !in used
  }

  ghost predicate Apart(a: ContivRuleLists, b: ContivRuleLists)
    reads a, b
  {
    a != b && a.byID.Values !! b.byID.Values
  }

  /** A head over the lists of the cache, for one direction. */
  ghost predicate Overlay(head: ContivRuleLists, base: ContivRuleLists, d: Direction, used: set<string>, updated: map<Iface, Slice>)
    reads head, base, head.byID.Values, base.byID.Values
  {
    && head.Valid() && head.Compact() && base.Valid() && Apart(head, base)
    && Head(head.View(), base.View(), updated)
    && Allocated(head.View(), d, used) && Allocated(base.View(), d, used)
  }

  class ContivRuleCache {
    var ingress: ContivRuleLists
    var egress: ContivRuleLists
    var interfaces: set<Iface>
    var allocatedListIDs: map<Direction, set<string>>

    constructor ()
      ensures ingress.Valid() && egress.Valid() && fresh(ingress) && fresh(egress) && Apart(ingress, egress)
      ensures ingress.View() == map[] && egress.View() == map[] && interfaces == {}
    {
      ingress := new ContivRuleLists();
      egress := new ContivRuleLists();
      interfaces, allocatedListIDs := {}, map[];
    }

    function Used(d: Direction): set<string>
      reads `allocatedListIDs
    {
      if d in allocatedListIDs then allocatedListIDs[d] else {}
    }
  }

  lemma UpdateKeys(head: Lists, base: Lists, i: Iface, rules: Slice, freshID: string)
    ensures forall id :: id in UpdateInterface(head, base, i, rules, freshID) ==> id in head || id in base || id == freshID
  {
    var c := CopyOriginal(head, base, i);
    assert forall id :: id in c ==> id in head || id in base;
  }

  lemma FreshId(v: Lists, d: Direction, used: set<string>, suffix: string)
    requires Allocated(v, d, used) && suffix !in used
    ensures DirName(d) + suffix !in v
  {
    assert (DirName(d) + suffix)[|DirName(d)|..] == suffix;
  }

  /** updateInterface: an ID is drawn, and registered, only for a list that is new. */
  method UpdateDirection(ifName: Iface, rules: Slice, d: Direction, head: ContivRuleLists, base: ContivRuleLists,
                         cache: ContivRuleCache, next: set<string> -> string, ghost updated: map<Iface, Slice>)
    requires Overlay(head, base, d, cache.Used(d), updated) && Generates(next)
    modifies cache`allocatedListIDs, head, head.byID.Values
    ensures Overlay(head, base, d, cache.Used(d), updated[ifName := rules])
    ensures forall other :: other != d ==> cache.Used(other) == old(cache.Used(other))
    ensures fresh(head.byID.Values - old(head.byID.Values)) && base.View() == old(base.View())
  {
    hide Overlay, DirName;
    var used := cache.Used(d);
    var suffix := next(used);
    UpdateNamed(ifName, rules, d, head, base, used, suffix, updated);
    if DirName(d) + suffix in head.byID {
      cache.allocatedListIDs := cache.allocatedListIDs[d := used + {suffix}];
    }
  }

  method UpdateNamed(ifName: Iface, rules: Slice, d: Direction, head: ContivRuleLists, base: ContivRuleLists,
                     ghost used: set<string>, suffix: string, ghost updated: map<Iface, Slice>)
    requires Overlay(head, base, d, used, updated) && suffix !in used
    modifies head, head.byID.Values
    ensures Overlay(head, base, d, if DirName(d) + suffix in head.byID then used + {suffix} else used, updated[ifName := rules])
    ensures fresh(head.byID.Values - old(head.byID.Values)) && base.View() == old(base.View())
  {
    hide ContivRuleLists.Valid, ContivRuleLists.View, ContivRuleLists.Compact, Head, Allocated, UpdateInterface, DirName;
    var id := DirName(d) + suffix;
    ghost var h, b := head.View(), base.View();
    FreshId(h, d, used, suffix);
    FreshId(b, d, used, suffix);
    head.ViewKeys();
    base.ViewKeys();
    UpdateInterfaceLists(ifName, rules, head, base, id, updated);
    head.ViewKeys();
    UpdateKeys(h, b, ifName, rules, id);
    AllocatedBoth(h, b, head.View(), d, used, suffix);
  }

  lemma AllocatedBoth(h: Lists, b: Lists, w: Lists, d: Direction, used: set<string>, suffix: string)
    requires Allocated(h, d, used) && Allocated(b, d, used)
    requires forall id :: id in w ==> id in h || id in b || id == DirName(d) + suffix
    ensures Allocated(w, d, used + {suffix}) && Allocated(b, d, used + {suffix})
    ensures DirName(d) + suffix !in w ==> Allocated(w, d, used)
  {
    assert (DirName(d) + suffix)[|DirName(d)|..] == suffix;
  }

  class ContivRuleCacheTxn {
    const cache: ContivRuleCache
    const ingress: ContivRuleLists
    const egress: ContivRuleLists
    var interfaces: set<Iface>

    ghost predicate Overlays(inUpdates: map<Iface, Slice>, egUpdates: map<Iface, Slice>)
      reads cache, ingress, egress, cache.ingress, cache.egress
      reads ingress.byID.Values, egress.byID.Values, cache.ingress.byID.Values, cache.egress.byID.Values
    {
      && Overlay(ingress, cache.ingress, Ingress, cache.Used(Ingress), inUpdates)
      && Overlay(egress, cache.egress, Egress, cache.Used(Egress), egUpdates)
      && Apart(ingress, egress) && Apart(ingress, cache.egress)
      && Apart(cache.ingress, egress) && Apart(cache.ingress, cache.egress)
    }

    ghost predicate Valid(inUpdates: map<Iface, Slice>, egUpdates: map<Iface, Slice>)
      reads this, cache, ingress, egress, cache.ingress, cache.egress
      reads ingress.byID.Values, egress.byID.Values, cache.ingress.byID.Values, cache.egress.byID.Values
    {
      && Overlays(inUpdates, egUpdates)
      && inUpdates.Keys == egUpdates.Keys == interfaces
    }

    constructor (cache: ContivRuleCache)
      requires cache.ingress.Valid() && cache.egress.Valid() && Apart(cache.ingress, cache.egress)
      requires Allocated(cache.ingress.View(), Ingress, cache.Used(Ingress))
      requires Allocated(cache.egress.View(), Egress, cache.Used(Egress))
      ensures Valid(map[], map[]) && this.cache == cache && fresh(ingress) && fresh(egress)
      ensures ingress.byID == map[] && egress.byID == map[] && interfaces == {}
    {
      hide *;
      this.cache := cache;
      ingress := new ContivRuleLists();
      egress := new ContivRuleLists();
      interfaces := {};
      new;
      StartOverlay(ingress, cache.ingress, Ingress, cache.Used(Ingress));
      StartOverlay(egress, cache.egress, Egress, cache.Used(Egress));
      Started();
    }

    lemma Started()
      requires Overlay(ingress, cache.ingress, Ingress, cache.Used(Ingress), map[])
      requires Overlay(egress, cache.egress, Egress, cache.Used(Egress), map[])
      requires ingress.byID == map[] && egress.byID == map[] && interfaces == {}
      requires ingress != egress && ingress != cache.egress && cache.ingress != egress && Apart(cache.ingress, cache.egress)
      ensures Valid(map[], map[])
    {
      hide Overlay;
    }

    method UpdateIngress(ifName: Iface, rules: Slice, next: set<string> -> string,
                         ghost inUpdates: map<Iface, Slice>, ghost egUpdates: map<Iface, Slice>)
      requires Overlays(inUpdates, egUpdates) && Generates(next)
      modifies cache`allocatedListIDs, ingress, ingress.byID.Values
      ensures Overlays(inUpdates[ifName := rules], egUpdates)
      ensures fresh(ingress.byID.Values - old(ingress.byID.Values))
      ensures cache.ingress.View() == old(cache.ingress.View()) && cache.egress.View() == old(cache.egress.View())
    {
      hide Overlay, Generates, ContivRuleLists.View, ContivRuleCache.Used;
      UpdateDirection(ifName, rules, Ingress, ingress, cache.ingress, cache, next, inUpdates);
    }

    method UpdateEgress(ifName: Iface, rules: Slice, next: set<string> -> string,
                        ghost inUpdates: map<Iface, Slice>, ghost egUpdates: map<Iface, Slice>)
      requires Overlays(inUpdates, egUpdates) && Generates(next)
      modifies cache`allocatedListIDs, egress, egress.byID.Values
      ensures Overlays(inUpdates, egUpdates[ifName := rules])
      ensures fresh(egress.byID.Values - old(egress.byID.Values))
      ensures cache.ingress.View() == old(cache.ingress.View()) && cache.egress.View() == old(cache.egress.View())
    {
      hide Overlay, Generates, ContivRuleLists.View, ContivRuleCache.Used;
      UpdateDirection(ifName, rules, Egress, egress, cache.egress, cache, next, egUpdates);
    }

    method Update(ifName: Iface, ingressRules: Slice, egressRules: Slice, next: set<string> -> string,
                  ghost inUpdates: map<Iface, Slice>, ghost egUpdates: map<Iface, Slice>)
      requires Valid(inUpdates, egUpdates) && Generates(next)
      modifies this, cache`allocatedListIDs, ingress, ingress.byID.Values, egress, egress.byID.Values
      ensures Valid(inUpdates[ifName := ingressRules], egUpdates[ifName := egressRules])
      ensures fresh(ingress.byID.Values - old(ingress.byID.Values)) && fresh(egress.byID.Values - old(egress.byID.Values))
      ensures cache.ingress.View() == old(cache.ingress.View()) && cache.egress.View() == old(cache.egress.View())
    {
      hide Generates, Overlays, ContivRuleLists.View;
      interfaces := interfaces + {ifName};
      assert Apart(ingress, egress) by { OverlaysApart(inUpdates, egUpdates); }
      UpdateIngress(ifName, ingressRules, next, inUpdates, egUpdates);
      UpdateEgress(ifName, egressRules, next, inUpdates[ifName := ingressRules], egUpdates);
    }

    lemma OverlaysApart(inUpdates: map<Iface, Slice>, egUpdates: map<Iface, Slice>)
      requires Overlays(inUpdates, egUpdates)
      ensures Apart(ingress, egress)
    {
    }
  }

  lemma StartOverlay(head: ContivRuleLists, base: ContivRuleLists, d: Direction, used: set<string>)
    requires head.Valid() && head.Compact() && head.View() == map[] && head.byID == map[]
    requires base.Valid() && head != base && Allocated(base.View(), d, used)
    ensures Overlay(head, base, d, used, map[])
  {
    hide ContivRuleLists.Valid, ContivRuleLists.View, ContivRuleLists.Compact, Head, Allocated;
    base.ViewWf();
    EmptyHead(base.View());
    NothingAllocated(d, used);
  }

  lemma NothingAllocated(d: Direction, used: set<string>)
    ensures Allocated(map[], d, used)
  {
  }
}
