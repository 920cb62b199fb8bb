/** Transactions of the ACL cache: interfaces are moved between shared rule lists in a head that
    overlays the cache, and commit folds the head into the cache
    (plugins/policy/renderer/acl/cache/cache_impl.go). */
module AclCache {
  import opened Base
  import opened VppAcl
  import opened AclLists
  import opened AclRuleLists

  // ----- updateInterface -----

  /** Creates a list and inserts it. */
  method InsertNew(head: ContivRuleLists, id: string, rules: Slice, interfaces: set<Iface>, priv: Option<AclBody>)
    requires head.Valid() && head.Compact() && id !in head.byID && !HasRules(head.View(), rules)
    modifies head, head.byID.Values
    ensures head.Valid() && head.Compact() && fresh(head.byID.Values - old(head.byID.Values))
    ensures head.View() == AclLists.Insert(old(head.View()), id, Entry(rules, interfaces, priv))
  {
    hide AclLists.Insert, HasRules, ContivRuleLists.Valid, ContivRuleLists.View;
    ghost var values := head.byID.Values;
    var list := new ContivRuleList(id, rules, interfaces, priv);
    var inserted := head.Insert(list);
    assert head.byID.Values <= values + {list};
  }

  /** freshID stands for the outcome of the random generator, which never repeats an ID. */
  method UpdateInterfaceLists(ifName: Iface, rules: Slice, head: ContivRuleLists, base: ContivRuleLists,
                              freshID: string, ghost updated: map<Iface, Slice>)
    requires head.Valid() && head.Compact() && base.Valid() && head != base && head.byID.Values !! base.byID.Values
    requires Head(head.View(), base.View(), updated)
    requires freshID !in head.byID && freshID !in base.byID
    modifies head, head.byID.Values
    ensures head.Valid() && head.Compact() && fresh(head.byID.Values - old(head.byID.Values))
    ensures head.View() == UpdateInterface(old(head.View()), base.View(), ifName, rules, freshID)
    ensures Head(head.View(), base.View(), updated[ifName := rules])
  {
    hide Head, CopyOriginal, Place, ContivRuleLists.Valid, ContivRuleLists.View;
    head.ViewKeys();
    base.ViewKeys();
    UpdateKeepsHead(head.View(), base.View(), updated, ifName, rules, freshID);
    CopyKeepsHead(head.View(), base.View(), updated, ifName);
    CopyFromBase(ifName, head, base, updated);
    head.ViewKeys();
    PlaceInterface(ifName, rules, head, base, freshID, updated);
  }

  method PlaceInterface(ifName: Iface, rules: Slice, head: ContivRuleLists, base: ContivRuleLists,
                        freshID: string, ghost updated: map<Iface, Slice>)
    requires head.Valid() && head.Compact() && base.Valid() && head != base && head.byID.Values !! base.byID.Values
    requires Head(head.View(), base.View(), updated)
    requires freshID !in head.byID
    modifies head, head.byID.Values
    ensures head.Valid() && head.Compact() && fresh(head.byID.Values - old(head.byID.Values))
    ensures head.View() == Place(old(head.View()), base.View(), ifName, rules, freshID)
  {
    hide Head, AclLists.Insert, Assign, HasRules, ContivRuleLists.Valid, ContivRuleLists.View;
    head.ViewKeys();
    // check if the list was already created inside the transaction
    var ruleList := head.LookupByRules(rules);
    if ruleList != null {
      head.AssignInterface(ruleList, ifName);
      return;
    }
    // check if the list exists in the cache (but not in the head)
    ruleList := base.LookupByRules(rules);
    if ruleList != null {
      base.ViewAt(ruleList);
      if ifName in ruleList.interfaces {
        return;
      }
      WithRulesHas(base.View(), rules);
      HeadRules(head.View(), base.View(), updated, ruleList.id);
      InsertNew(head, ruleList.id, ruleList.rules, ruleList.interfaces + {ifName}, ruleList.priv);
      return;
    }
    InsertNew(head, freshID, rules, {ifName}, None);
  }

  lemma WithRulesHas(v: Lists, rules: Slice)
    requires HasRules(v, rules)
    ensures WithRules(v, rules) in v && v[WithRules(v, rules)].rules == rules
  {
  }

  method CopyFromBase(ifName: Iface, head: ContivRuleLists, base: ContivRuleLists, ghost updated: map<Iface, Slice>)
    requires head.Valid() && head.Compact() && base.Valid() && head != base && head.byID.Values !! base.byID.Values
    requires Head(head.View(), base.View(), updated)
    modifies head, head.byID.Values
    ensures head.Valid() && head.Compact() && fresh(head.byID.Values - old(head.byID.Values))
    ensures head.View() == CopyOriginal(old(head.View()), base.View(), ifName)
  {
    hide Head, AclLists.Insert, HasRules, Owned, ContivRuleLists.Valid, ContivRuleLists.View;
    var orig := base.LookupByInterface(ifName);
    if orig != null {
      base.ViewAt(orig);
      head.ViewKeys();
      var existing := head.LookupByID(orig.id);
      if existing == null {
        CopyIsSafe(head.View(), base.View(), updated, orig.id);
        InsertNew(head, orig.id, orig.rules, orig.interfaces, orig.priv);
      }
    }
  }

  // ----- commit -----

  function WithIfaces(v: Lists, id: string, ifaces: set<Iface>): Lists
    requires id in v
  {
    v[id := v[id].(ifaces := ifaces)]
  }

  lemma AssignStep(v: Lists, id: string, taken: set<Iface>, own: set<Iface>, i: Iface)
    requires id in v
    ensures Assign(WithIfaces(Without(v, taken), id, own), id, i) == WithIfaces(Without(v, taken + {i}), id, own + {i})
  {
    WithoutMore(v, taken, i);
    assert own - {i} + {i} == own + {i};
  }

  /** Unassigns the interfaces that a list no longer has. */
  method UnassignGone(ruleList: ContivRuleList, wanted: set<Iface>, base: ContivRuleLists)
    requires base.Valid() && base.Has(ruleList)
    modifies base`byInterface, base.byID.Values
    ensures base.Valid()
    ensures base.View() == WithIfaces(old(base.View()), ruleList.id, old(ruleList.interfaces) * wanted)
  {
    hide ContivRuleLists.Valid, ContivRuleLists.View;
    var todo := ruleList.interfaces;
    ghost var v, all := base.View(), ruleList.interfaces;
    base.ViewAt(ruleList);
    assert all * (todo + wanted) == all;
    while todo != {}
      invariant base.Valid() && todo <= all
      invariant base.View() == WithIfaces(v, ruleList.id, all * (todo + wanted))
      decreases todo
    {
      var iface :| iface in todo;
      if iface !in wanted {
        base.UnassignInterface(ruleList, iface);
        assert all * (todo + wanted) - {iface} == all * (todo - {iface} + wanted);
      } else {
        assert all * (todo + wanted) == all * (todo - {iface} + wanted);
      }
      todo := todo - {iface};
    }
    assert all * (todo + wanted) == all * wanted;
  }

  /** Assigns the interfaces that a list does not have yet. */
  method AssignNew(ruleList: ContivRuleList, wanted: set<Iface>, base: ContivRuleLists)
    requires base.Valid() && base.Has(ruleList)
    modifies base`byInterface, base.byID.Values
    ensures base.Valid()
    ensures base.View() == WithIfaces(Without(old(base.View()), wanted - old(ruleList.interfaces)),
                                      ruleList.id, old(ruleList.interfaces) + wanted)
  {
    hide ContivRuleLists.Valid, ContivRuleLists.View, Assign;
    var todo := wanted;
    ghost var v, own := base.View(), ruleList.interfaces;
    base.ViewAt(ruleList);
    WithoutNothing(v);
    assert wanted - todo - own == {} && own + (wanted - todo) == own;
    while todo != {}
      invariant base.Valid() && todo <= wanted
      invariant base.View() == WithIfaces(Without(v, wanted - todo - own), ruleList.id, own + (wanted - todo))
      decreases todo
    {
      var iface :| iface in todo;
      base.ViewAt(ruleList);
      assert ruleList.interfaces == own + (wanted - todo);
      assert own + (wanted - (todo - {iface})) == own + (wanted - todo) + {iface};
      if iface !in ruleList.interfaces {
        AssignStep(v, ruleList.id, wanted - todo - own, own + (wanted - todo), iface);
        base.AssignInterface(ruleList, iface);
        assert wanted - (todo - {iface}) - own == wanted - todo - own + {iface};
      } else {
        assert own + (wanted - todo) + {iface} == own + (wanted - todo);
        assert wanted - (todo - {iface}) - own == wanted - todo - own;
      }
      todo := todo - {iface};
    }
    assert wanted - todo == wanted;
  }

  method CommitChanged(ruleList: ContivRuleList, orig: ContivRuleList, base: ContivRuleLists)
    requires base.Valid() && base.Has(orig) && orig.id == ruleList.id && ruleList !in base.byID.Values
    requires ruleList.interfaces != {} && ruleList.interfaces != orig.interfaces
    modifies base`byInterface, base.byID.Values
    ensures base.Valid()
    ensures base.View() == CommitOne(old(base.View()), ruleList.id, ruleList.AsEntry())
  {
    hide ContivRuleLists.Valid, ContivRuleLists.View, Without;
    base.ViewAt(orig);
    CommitSteps(base.View(), ruleList.id, ruleList.AsEntry());
    UnassignGone(orig, ruleList.interfaces, base);
    base.ViewAt(orig);
    AssignNew(orig, ruleList.interfaces, base);
    base.SetPrivate(orig, ruleList.priv);
  }

  /** commit for one list of the head.  Remove is given the list of the head, which the base
      does not hold as an object, so it removes nothing. */
  method CommitList(ruleList: ContivRuleList, base: ContivRuleLists)
    requires base.Valid() && !base.Has(ruleList)
    requires ruleList.id !in base.byID ==> !HasRules(base.View(), ruleList.rules)
    modifies base, base.byID.Values
    ensures base.Valid()
    ensures base.View() == CommitOne(old(base.View()), ruleList.id, old(ruleList.AsEntry()))
    ensures base.byID == if ruleList.id in old(base.byID) || ruleList.interfaces == {} then old(base.byID)
                         else old(base.byID)[ruleList.id := ruleList]
  {
    hide ContivRuleLists.Valid, ContivRuleLists.View, HasRules, Without;
    base.ViewKeys();
    base.NotHeld(ruleList);
    var orig := base.LookupByID(ruleList.id);
    if orig != null {
      base.IdsAgree(ruleList.id);
      base.ViewAt(orig);
      if ruleList.interfaces == {} {
        var removed := base.Remove(ruleList);
      } else if ruleList.interfaces != orig.interfaces {
        CommitChanged(ruleList, orig, base);
      }
    } else if ruleList.interfaces != {} {
      var inserted := base.Insert(ruleList);
    }
  }

  lemma CommitSteps(v: Lists, id: string, h: Entry)
    requires id in v && h.ifaces != {} && h.ifaces != v[id].ifaces
    ensures var kept := v[id].ifaces * h.ifaces;
            var w := WithIfaces(Without(WithIfaces(v, id, kept), h.ifaces - kept), id, kept + h.ifaces);
            w[id := w[id].(priv := h.priv)] == CommitOne(v, id, h)
  {
    var kept := v[id].ifaces * h.ifaces;
    assert h.ifaces - kept == h.ifaces - v[id].ifaces && kept + h.ifaces == h.ifaces;
  }

  /** A list of the head that the base does not have by then is not rejected by Insert. */
  lemma CommitAccepts(base: Lists, head: Lists, done: seq<string>, id: string)
    requires HeadLists(head, base) && id in head && id !in done
    requires forall k :: 0 <= k < |done| ==> done[k] in head
    requires forall j, k :: 0 <= j < k < |done| ==> done[j] != done[k]
    ensures id !in CommitAll(base, head, done) ==> !HasRules(CommitAll(base, head, done), head[id].rules)
  {
    hide CommitAll, OwnsAfter;
    CommitAllCommits(base, head, done);
    if id !in CommitAll(base, head, done) {
      assert id !in base && !HasRules(base, head[id].rules);
    }
  }

  /** Committing a list does not touch lists that share no interface with it. */
  lemma CommitOneKeepsOthers(b: Lists, id: string, h: Entry, x: string)
    requires x in b && x != id && b[x].ifaces !! h.ifaces
    ensures x in CommitOne(b, id, h) && CommitOne(b, id, h)[x] == b[x]
  {
    assert b[x].ifaces - h.ifaces == b[x].ifaces;
    if id in b {
      assert b[x].ifaces - (h.ifaces - b[id].ifaces) == b[x].ifaces;
    }
  }

  method CommitNext(ruleList: ContivRuleList, head: ContivRuleLists, base: ContivRuleLists)
    requires head.Indexed() && head.Has(ruleList) && Wf(head.View()) && head != base
    requires base.Valid() && !base.Has(ruleList)
    requires ruleList.id !in base.byID ==> !HasRules(base.View(), ruleList.rules)
    modifies base, base.byID.Values
    ensures base.Valid() && head.View() == old(head.View())
    ensures base.View() == CommitOne(old(base.View()), ruleList.id, old(head.View())[ruleList.id])
    ensures base.byID.Values <= old(base.byID.Values) + {ruleList}
  {
    hide ContivRuleLists.Valid, HasRules, CommitOne, CompareRuleLists, SortedLists, Slots;
    ghost var b, h := base.View(), head.View();
    ghost var id := ruleList.id;
    forall x | x in head.byID && base.Has(head.byID[x]) ensures x in b && x != id && b[x] == h[x] {
    }
    forall x | x in head.byID && base.Has(head.byID[x]) ensures x in CommitOne(b, id, h[id]) && CommitOne(b, id, h[id])[x] == h[x] {
      CommitOneKeepsOthers(b, id, h[id], x);
    }
    ghost var held := set x | x in head.byID && base.Has(head.byID[x]);
    forall x | x in head.byID && x !in held ensures head.byID[x] !in base.byID.Values {
      base.NotHeld(head.byID[x]);
    }
    CommitList(ruleList, base);
    forall x | x in head.byID ensures head.View()[x] == h[x] {
      if x in held {
        assert base.Has(head.byID[x]);
      }
    }
  }

  ghost function Ids(s: seq<ContivRuleList>): (ids: seq<string>)
    ensures |ids| == |s| && forall k :: 0 <= k < |s| ==> ids[k] == s[k].id
  {
    seq(|s|, k requires 0 <= k < |s| => s[k].id)
  }

  /** The IDs of the ordered lists are distinct and are those of the view. */
  lemma IdsOf(lists: ContivRuleLists)
    requires lists.Indexed()
    ensures forall j, k :: 0 <= j < k < lists.numItems ==> lists.Items()[j] != lists.Items()[k]
    ensures forall k :: 0 <= k < lists.numItems ==>
              lists.Has(lists.Items()[k]) && lists.ruleLists[k] == Some(lists.Items()[k])
    ensures var ids := Ids(lists.Items());
            && (forall k :: 0 <= k < |ids| ==> ids[k] in lists.View())
            && (forall id :: id in lists.View() ==> id in ids)
            && (forall j, k :: 0 <= j < k < |ids| ==> ids[j] != ids[k])
  {
    hide CompareRuleLists, Agree;
    var s := lists.Items();
    forall j, k | 0 <= j < k < |s| ensures s[j] != s[k] && s[j].id != s[k].id {
      CompareListsOrder(s[j].rules, s[j].rules, s[j].rules);
      assert s[j] in s && s[k] in s;
    }
    forall id | id in lists.View() ensures id in Ids(s) {
      var k :| 0 <= k < |s| && s[k] == lists.byID[id];
      assert Ids(s)[k] == id;
    }
    assert forall k :: 0 <= k < |s| ==> s[k] in s;
  }

  lemma CommitMore(b: Lists, h: Lists, ids: seq<string>, k: nat)
    requires k < |ids| && forall j :: 0 <= j <= k ==> ids[j] in h
    ensures CommitAll(b, h, ids[..k + 1]) == CommitOne(CommitAll(b, h, ids[..k]), ids[k], h[ids[k]])
  {
    hide CommitOne;
    assert ids[..k + 1][..k] == ids[..k] && ids[..k + 1][k] == ids[k];
  }

  method CommitStep(k: nat, head: ContivRuleLists, base: ContivRuleLists, ghost b: Lists, ghost h: Lists)
    requires head.Indexed() && k < head.numItems && head != base
    requires HeadLists(h, b) && head.View() == h
    requires base.Valid() && head.Items()[k] !in base.byID.Values
    requires (forall j :: 0 <= j < k ==> Ids(head.Items())[j] in h) && base.View() == CommitAll(b, h, Ids(head.Items())[..k])
    modifies base, base.byID.Values
    ensures base.Valid() && head.View() == h
    ensures (forall j :: 0 <= j <= k ==> Ids(head.Items())[j] in h) && base.View() == CommitAll(b, h, Ids(head.Items())[..k + 1])
    ensures base.byID.Values <= old(base.byID.Values) + {head.Items()[k]}
  {
    hide ContivRuleLists.View, ContivRuleLists.Valid, ContivRuleLists.Assigned, CommitAll, CommitOne, IndexedBy, HasRules, Wf,
         CompareRuleLists, SortedLists;
    IdsOf(head);
    var ruleList := head.ruleLists[k].value;
    ghost var ids := Ids(head.Items());
    CommitMore(b, h, ids, k);
    CommitAccepts(b, h, ids[..k], ruleList.id);
    base.ViewKeys();
    head.ViewAt(ruleList);
    CommitNext(ruleList, head, base);
  }

  lemma CommitStart(head: ContivRuleLists, base: ContivRuleLists, updated: map<Iface, Slice>)
    requires head.Valid() && head.Compact() && base.Valid() && head.byID.Values !! base.byID.Values
    requires Head(head.View(), base.View(), updated)
    ensures head.Indexed() && HeadLists(head.View(), base.View())
    ensures Slots(head.ruleLists, head.numItems) && head.numItems == |head.ruleLists|
    ensures forall j, k :: 0 <= j < k < head.numItems ==> head.Items()[j] != head.Items()[k]
    ensures forall k :: 0 <= k < head.numItems ==> head.Items()[k] in head.byID.Values
    ensures forall k :: 0 <= k < head.numItems ==> Ids(head.Items())[k] in head.View()
    ensures base.View() == CommitAll(base.View(), head.View(), Ids(head.Items())[..0])
    ensures Refines(base.View(), updated, CommitAll(base.View(), head.View(), Ids(head.Items())))
  {
    hide ContivRuleLists.View, ContivRuleLists.Assigned, HeadLists, HeadUpdated, HeadKeeps, Refines, CommitOne, IndexedBy;
    IdsOf(head);
    CommitRefines(head.View(), base.View(), updated, Ids(head.Items()));
  }

  /** commit: the base becomes what the updates of the transaction ask for. */
  method CommitLists(head: ContivRuleLists, base: ContivRuleLists, ghost updated: map<Iface, Slice>)
    requires head.Valid() && head.Compact() && base.Valid() && head != base && head.byID.Values !! base.byID.Values
    requires Head(head.View(), base.View(), updated)
    modifies base, base.byID.Values, head.byID.Values
    ensures base.Valid() && head.View() == old(head.View())
    ensures base.View() == CommitAll(old(base.View()), old(head.View()), Ids(head.Items()))
    ensures Refines(old(base.View()), updated, base.View())
    ensures base.byID.Values <= old(base.byID.Values) + head.byID.Values
  {
    hide *;
    CommitStart(head, base, updated);
    ghost var b, h, items := base.View(), head.View(), head.Items();
    ghost var ids := Ids(items);
    for k := 0 to |head.ruleLists|
      invariant base.Valid() && head.View() == h
      invariant base.View() == CommitAll(b, h, ids[..k])
      invariant forall j :: k <= j < |items| ==> items[j] !in base.byID.Values
      invariant base.byID.Values <= old(base.byID.Values) + head.byID.Values
    {
      CommitStep(k, head, base, b, h);
    }
    assert ids[..|ids|] == ids;
  }

  // ----- getChanges -----

  datatype TxnChange = TxnChange(list: ContivRuleList, previous: set<Iface>)

  /** The interfaces of a list before the transaction. */
  ghost function Previous(base: Lists, id: string): set<Iface> {
    if id in base then base[id].ifaces else {}
  }

  /** Exactly the lists whose interfaces differ, each once, with their previous interfaces. */
  method GetChanges(head: ContivRuleLists, base: ContivRuleLists) returns (changes: seq<TxnChange>)
    requires head.Valid() && head.Compact() && base.Valid()
    ensures forall c :: c in changes ==> head.Has(c.list) && c.previous == Previous(base.View(), c.list.id) != c.list.interfaces
    ensures forall x :: x in head.Items() && x.interfaces != Previous(base.View(), x.id) ==>
              TxnChange(x, Previous(base.View(), x.id)) in changes
    ensures forall j, k :: 0 <= j < k < |changes| ==> changes[j].list != changes[k].list
  {
    hide *;
    changes := [];
    ItemsOf(head);
    ghost var items := head.Items();
    for k := 0 to |head.ruleLists|
      invariant forall c :: c in changes ==>
                  c.list in items[..k] && c.previous == Previous(base.View(), c.list.id) != c.list.interfaces
      invariant forall j :: 0 <= j < k && items[j].interfaces != Previous(base.View(), items[j].id) ==>
                  TxnChange(items[j], Previous(base.View(), items[j].id)) in changes
      invariant forall i, j :: 0 <= i < j < |changes| ==> changes[i].list != changes[j].list
    {
      var ruleList := head.ruleLists[k].value;
      assert items[..k + 1] == items[..k] + [ruleList];
      var orig := base.LookupByID(ruleList.id);
      PreviousIs(base, ruleList.id);
      if ruleList.interfaces == {} && orig == null {
        // added and removed in the same transaction
        continue;
      }
      if orig != null && ruleList.interfaces == orig.interfaces {
        continue;
      }
      var change := TxnChange(ruleList, if orig != null then orig.interfaces else {});
      assert forall c :: c in changes ==> c.list != ruleList;
      ghost var before := changes;
      changes := changes + [change];
      assert forall c :: c in changes <==> c in before || c == change;
    }
    assert items[..|items|] == items;
  }

  lemma PreviousIs(base: ContivRuleLists, id: string)
    ensures Previous(base.View(), id) == if id in base.byID then base.byID[id].interfaces else {}
  {
  }

  lemma ItemsOf(lists: ContivRuleLists)
    requires lists.Valid() && lists.Compact()
    ensures Slots(lists.ruleLists, lists.numItems) && lists.numItems == |lists.ruleLists|
    ensures forall j, k :: 0 <= j < k < lists.numItems ==> lists.Items()[j] != lists.Items()[k]
    ensures forall k :: 0 <= k < lists.numItems ==>
              lists.Has(lists.Items()[k]) && lists.ruleLists[k] == Some(lists.Items()[k])
  {
    IdsOf(lists);
  }
}
