/** The ordered collection of shared rule lists with its indexes by ID and by interface
    (plugins/policy/renderer/acl/cache/cache_impl.go). */
module AclRuleLists {
  import opened Base
  import opened Rules
  import opened VppAcl
  import opened AclLists

  // ----- Order of rule lists -----

  /** The first differing rules decide. */
  function CompareRules(a: seq<Rule>, b: seq<Rule>): int
    requires |a| == |b|
  {
    if a == [] then 0
    else if Compare(a[0], b[0]) != 0 then Compare(a[0], b[0])
    else CompareRules(a[1..], b[1..])
  }

  /** compareRuleLists: nil first, then by length, then by the rules. */
  function CompareRuleLists(a: Slice, b: Slice): int {
    if a.None? && b.None? then 0
    else if a.None? then -1
    else if b.None? then 1
    else if CompareInts(|a.value|, |b.value|) != 0 then CompareInts(|a.value|, |b.value|)
    else CompareRules(a.value, b.value)
  }

  lemma {:induction false} CompareRulesOrder(a: seq<Rule>, b: seq<Rule>, c: seq<Rule>)
    requires |a| == |b| == |c|
    ensures CompareRules(a, b) == -CompareRules(b, a)
    ensures CompareRules(a, b) == 0 <==> a == b
    ensures CompareRules(a, b) <= 0 && CompareRules(b, c) <= 0 ==> CompareRules(a, c) <= 0
  {
    hide Compare;
    if a != [] {
      CompareRulesOrder(a[1..], b[1..], c[1..]);
      CompareOrder(a[0], b[0], c[0]);
      CompareOrder(b[0], c[0], a[0]);
      CompareOrder(c[0], a[0], b[0]);
      assert a == [a[0]] + a[1..] && b == [b[0]] + b[1..];
    }
  }

  /** A total order in which exactly equal lists compare equal; nil is not the empty list. */
  lemma CompareListsOrder(a: Slice, b: Slice, c: Slice)
    ensures CompareRuleLists(a, b) == -CompareRuleLists(b, a)
    ensures CompareRuleLists(a, b) == 0 <==> a == b
    ensures CompareRuleLists(a, b) <= 0 && CompareRuleLists(b, c) <= 0 ==> CompareRuleLists(a, c) <= 0
  {
    hide CompareRules;
    if a.Some? && b.Some? && |a.value| == |b.value| {
      CompareRulesOrder(a.value, b.value, if c.Some? && |c.value| == |a.value| then c.value else b.value);
    }
  }

  lemma CompareListsStrict(a: Slice, b: Slice, c: Slice)
    ensures CompareRuleLists(a, b) < 0 && CompareRuleLists(b, c) <= 0 ==> CompareRuleLists(a, c) < 0
    ensures CompareRuleLists(a, b) <= 0 && CompareRuleLists(b, c) < 0 ==> CompareRuleLists(a, c) < 0
  {
    hide CompareRuleLists;
    CompareListsOrder(a, b, c);
    CompareListsOrder(b, c, a);
    CompareListsOrder(c, a, b);
  }

  // ----- ContivRuleLists -----

  class ContivRuleList {
    const id: string
    const rules: Slice
    var interfaces: set<Iface>
    var priv: Option<AclBody>

    constructor (id: string, rules: Slice, interfaces: set<Iface>, priv: Option<AclBody>)
      ensures this.id == id && this.rules == rules && this.interfaces == interfaces && this.priv == priv
    {
      this.id, this.rules, this.interfaces, this.priv := id, rules, interfaces, priv;
    }

    function AsEntry(): Entry
      reads this
    {
      Entry(rules, interfaces, priv)
    }
  }

  ghost predicate SortedLists(s: seq<ContivRuleList>) {
    forall j, k :: 0 <= j < k < |s| ==> CompareRuleLists(s[j].rules, s[k].rules) < 0
  }

  /** idx is the first position whose rules are not smaller. */
  ghost predicate LowerBound(s: seq<ContivRuleList>, rules: Slice, idx: nat) {
    && idx <= |s|
    && (forall k :: 0 <= k < idx ==> CompareRuleLists(rules, s[k].rules) > 0)
    && (forall k :: idx <= k < |s| ==> CompareRuleLists(rules, s[k].rules) <= 0)
  }

  /** A list with the wanted rules can only be at the lower bound. */
  lemma LowerBoundFinds(s: seq<ContivRuleList>, rules: Slice, idx: nat)
    requires SortedLists(s) && LowerBound(s, rules, idx)
    ensures idx < |s| && CompareRuleLists(rules, s[idx].rules) == 0 ==> s[idx].rules == rules
    ensures !(idx < |s| && CompareRuleLists(rules, s[idx].rules) == 0) ==> forall x :: x in s ==> x.rules != rules
  {
    hide CompareRuleLists;
    forall k | 0 <= k < |s| ensures s[k].rules == rules ==> k == idx {
      CompareListsOrder(rules, s[k].rules, rules);
      CompareListsOrder(rules, rules, rules);
      if idx < k {
        CompareListsStrict(rules, s[idx].rules, s[k].rules);
      }
    }
    if idx < |s| {
      CompareListsOrder(rules, s[idx].rules, rules);
    }
  }

  lemma InsertKeepsSorted(s: seq<ContivRuleList>, x: ContivRuleList, idx: nat)
    requires SortedLists(s) && LowerBound(s, x.rules, idx) && forall y :: y in s ==> y.rules != x.rules
    ensures SortedLists(s[..idx] + [x] + s[idx..])
  {
    hide CompareRuleLists;
    var t := s[..idx] + [x] + s[idx..];
    forall k | 0 <= k < |s| ensures k < idx ==> CompareRuleLists(s[k].rules, x.rules) < 0
                            ensures k >= idx ==> CompareRuleLists(x.rules, s[k].rules) < 0 {
      assert s[k] in s;
      CompareListsOrder(x.rules, s[k].rules, x.rules);
    }
    assert forall k :: 0 <= k < |t| ==> t[k] == if k < idx then s[k] else if k == idx then x else s[k - 1];
  }

  lemma RemoveKeepsSorted(s: seq<ContivRuleList>, idx: nat)
    requires SortedLists(s) && idx < |s|
    ensures SortedLists(s[..idx] + s[idx + 1..])
    ensures forall x :: x in s[..idx] + s[idx + 1..] <==> x in s && x != s[idx]
  {
    hide CompareRuleLists;
    var t := s[..idx] + s[idx + 1..];
    assert forall k :: 0 <= k < |t| ==> t[k] == s[if k < idx then k else k + 1];
    forall k | 0 <= k < |s| && k != idx ensures s[k] != s[idx] && s[k] in t {
      CompareListsOrder(s[idx].rules, s[idx].rules, s[idx].rules);
      assert s[k] == t[if k < idx then k else k - 1];
    }
  }

  ghost predicate IndexedBy(s: seq<ContivRuleList>, byID: map<string, ContivRuleList>) {
    && SortedLists(s)
    && (forall x :: x in s ==> x.id in byID && byID[x.id] == x)
    && (forall id :: id in byID ==> byID[id].id == id && byID[id] in s)
  }

  lemma IndexedInsert(s: seq<ContivRuleList>, byID: map<string, ContivRuleList>, x: ContivRuleList, idx: nat)
    requires IndexedBy(s, byID) && x.id !in byID
    requires LowerBound(s, x.rules, idx) && forall y :: y in s ==> y.rules != x.rules
    ensures IndexedBy(s[..idx] + [x] + s[idx..], byID[x.id := x])
  {
    hide CompareRuleLists, SortedLists;
    InsertKeepsSorted(s, x, idx);
    InsertedMembers(s, x, idx);
  }

  lemma IndexedRemove(s: seq<ContivRuleList>, byID: map<string, ContivRuleList>, idx: nat)
    requires IndexedBy(s, byID) && idx < |s|
    ensures IndexedBy(s[..idx] + s[idx + 1..], byID - {s[idx].id})
  {
    hide CompareRuleLists, SortedLists;
    RemoveKeepsSorted(s, idx);
    assert s[idx] in s;
  }

  /** An interface is in the list that the index names and in no other. */
  ghost predicate Agree(owners: map<Iface, string>, v: Lists) {
    forall id, i :: Owns(v, id, i) <==> i in owners && owners[i] == id
  }

  lemma AgreeWithout(owners: map<Iface, string>, v: Lists, i: Iface)
    requires Agree(owners, v)
    ensures Agree(owners - {i}, Without(v, {i}))
    ensures i !in owners ==> Without(v, {i}) == v
    ensures i in owners ==> owners[i] in v && Without(v, {i}) == Unassign(v, owners[i], i)
  {
    var w := Without(v, {i});
    assert forall id, j :: Owns(w, id, j) <==> Owns(v, id, j) && j != i;
    forall id | id in v ensures w[id] == if Owns(v, id, i) then v[id].(ifaces := v[id].ifaces - {i}) else v[id] {
      if !Owns(v, id, i) { assert v[id].ifaces - {i} == v[id].ifaces; }
    }
    if i in owners {
      assert Owns(v, owners[i], i);
    }
  }

  lemma AgreeUnassign(owners: map<Iface, string>, v: Lists, id: string, i: Iface)
    requires Agree(owners, v) && id in v
    ensures Owns(v, id, i) ==> Agree(owners - {i}, Unassign(v, id, i))
    ensures !Owns(v, id, i) ==> Unassign(v, id, i) == v
  {
    if Owns(v, id, i) {
      AgreeWithout(owners, v, i);
    } else {
      assert v[id].ifaces - {i} == v[id].ifaces;
    }
  }

  lemma AgreeAt(owners: map<Iface, string>, v: Lists, id: string, i: Iface)
    requires Agree(owners, v)
    ensures Owns(v, id, i) <==> i in owners && owners[i] == id
  {
  }

  lemma AgreeAssign(owners: map<Iface, string>, v: Lists, id: string, i: Iface)
    requires Agree(owners, v) && id in v
    ensures Agree(owners[i := id], Assign(v, id, i))
  {
    forall x, j ensures Owns(Assign(v, id, i), x, j) <==> j in owners[i := id] && owners[i := id][j] == x {
      OwnsAfterAssign(v, id, i, x, j);
    }
  }

  lemma AgreeInsert(owners: map<Iface, string>, v: Lists, id: string, e: Entry)
    requires Agree(owners, Without(v, e.ifaces)) && id !in v
    ensures Agree(owners + (map i | i in e.ifaces :: id), AclLists.Insert(v, id, e))
  {
    var o := owners + (map i | i in e.ifaces :: id);
    var w := Without(v, e.ifaces);
    forall x, j ensures Owns(AclLists.Insert(v, id, e), x, j) <==> j in o && o[j] == x {
      OwnsAfterInsert(v, id, e, x, j);
      assert Owns(w, x, j) <==> Owns(v, x, j) && j !in e.ifaces;
    }
  }

  lemma AgreeRemove(owners: map<Iface, string>, v: Lists, id: string)
    requires Agree(owners, v) && id in v
    ensures Agree(owners - v[id].ifaces, v - {id})
  {
    forall x, j ensures Owns(v - {id}, x, j) <==> j in owners - v[id].ifaces && (owners - v[id].ifaces)[j] == x {
      assert Owns(v, id, j) <==> j in v[id].ifaces;
      assert Owns(v - {id}, x, j) <==> Owns(v, x, j) && x != id;
    }
  }

  lemma WithoutNothing(v: Lists)
    ensures Without(v, {}) == v
  {
    assert forall id :: id in v ==> v[id].ifaces - {} == v[id].ifaces;
  }

  lemma WithoutMore(v: Lists, s: set<Iface>, i: Iface)
    ensures Without(Without(v, s), {i}) == Without(v, s + {i})
  {
    assert forall id :: id in v ==> v[id].ifaces - s - {i} == v[id].ifaces - (s + {i});
  }

  lemma InsertedMembers(s: seq<ContivRuleList>, x: ContivRuleList, idx: nat)
    requires idx <= |s|
    ensures forall y :: y in s[..idx] + [x] + s[idx..] <==> y in s || y == x
  {
    assert s == s[..idx] + s[idx..];
  }

  class ContivRuleLists {
    var ruleLists: seq<Option<ContivRuleList>>   // ordered by rules
    var numItems: nat                            // actual number of lists, the rest are nils
    var byID: map<string, ContivRuleList>
    var byInterface: map<Iface, ContivRuleList>

    ghost function Items(): (s: seq<ContivRuleList>)
      requires Slots(ruleLists, numItems)
      reads `ruleLists, `numItems
      ensures |s| == numItems
    {
      Values(ruleLists, numItems)
    }

    /** The index by ID holds exactly the ordered lists. */
    ghost predicate Indexed()
      reads `ruleLists, `numItems, `byID
    {
      Slots(ruleLists, numItems) && IndexedBy(Items(), byID)
    }

    ghost function Owners(): map<Iface, string>
      reads `byInterface
    {
      map i | i in byInterface :: byInterface[i].id
    }

    ghost predicate Has(list: ContivRuleList)
      reads `byID
    {
      list.id in byID && byID[list.id] == list
    }

    ghost predicate Linked()
      reads `byID, `byInterface
    {
      forall i :: i in byInterface ==> Has(byInterface[i])
    }

    /** The index by interface agrees with the interfaces of the lists. */
    ghost predicate Assigned()
      reads this, byID.Values
    {
      Linked() && Agree(Owners(), View())
    }

    ghost predicate Valid()
      reads this, byID.Values
    {
      Indexed() && Assigned()
    }

    /** The lists as a value. */
    ghost function View(): Lists
      reads `byID, byID.Values
    {
      map id | id in byID :: byID[id].AsEntry()
    }

    /** True until a list is removed: no nil slots at the end. */
    predicate Compact()
      reads this
    {
      numItems == |ruleLists|
    }

    constructor ()
      ensures Valid() && View() == map[] && byID == map[] && Compact()
    {
      ruleLists, numItems, byID, byInterface := [], 0, map[], map[];
    }

    lemma ViewWf()
      requires Valid()
      ensures Wf(View())
    {
      hide CompareRuleLists;
      assert forall a, i :: a in View() && i in View()[a].ifaces ==> Owns(View(), a, i);
      forall a, b | a in byID && b in byID && a != b ensures byID[a].rules != byID[b].rules {
        var j :| 0 <= j < numItems && Items()[j] == byID[a];
        var k :| 0 <= k < numItems && Items()[k] == byID[b];
        CompareListsOrder(byID[a].rules, byID[a].rules, byID[a].rules);
      }
    }

    lemma OwnerIs(i: Iface)
      requires Valid()
      ensures i in byInterface <==> Owned(View(), i)
      ensures i in byInterface ==> OwnerOf(View(), i) == byInterface[i].id
    {
      hide CompareRuleLists, SortedLists;
      if i in byInterface {
        assert Owns(View(), byInterface[i].id, i);
      }
    }

    /** sort.Search over the first numItems lists. */
    method LookupIdxByRules(rules: Slice) returns (idx: nat)
      requires Indexed()
      ensures LowerBound(Items(), rules, idx)
    {
      hide CompareRuleLists;
      var lo, hi := 0, numItems;
      while lo < hi
        invariant 0 <= lo <= hi <= numItems
        invariant forall k :: 0 <= k < lo ==> CompareRuleLists(rules, Items()[k].rules) > 0
        invariant forall k :: hi <= k < numItems ==> CompareRuleLists(rules, Items()[k].rules) <= 0
      {
        var h := (lo + hi) / 2;
        ghost var pivot := Items()[h].rules;
        if CompareRuleLists(rules, ruleLists[h].value.rules) <= 0 {
          forall k | h <= k < numItems ensures CompareRuleLists(rules, Items()[k].rules) <= 0 {
            CompareListsStrict(rules, pivot, Items()[k].rules);
          }
          hi := h;
        } else {
          forall k | 0 <= k <= h ensures CompareRuleLists(rules, Items()[k].rules) > 0 {
            CompareListsOrder(rules, pivot, rules);
            CompareListsOrder(rules, Items()[k].rules, rules);
            CompareListsStrict(Items()[k].rules, pivot, rules);
          }
          lo := h + 1;
        }
      }
      idx := lo;
    }

    method LookupByID(id: string) returns (list: ContivRuleList?)
      ensures if id in byID then list == byID[id] else list == null
    {
      list := if id in byID then byID[id] else null;
    }

    method LookupByRules(rules: Slice) returns (list: ContivRuleList?)
      requires Valid()
      ensures list == null <==> !HasRules(View(), rules)
      ensures list != null ==> Has(list) && WithRules(View(), rules) == list.id
    {
      hide CompareRuleLists, Assigned;
      var idx := LookupIdxByRules(rules);
      LowerBoundFinds(Items(), rules, idx);
      if idx < numItems && CompareRuleLists(rules, ruleLists[idx].value.rules) == 0 {
        list := ruleLists[idx].value;
        assert list == Items()[idx];
        assert View()[list.id].rules == rules;
        ViewWf();
      } else {
        list := null;
        forall id | id in byID ensures View()[id].rules != rules {
          assert byID[id] in Items();
        }
      }
    }

    method LookupByInterface(ifName: Iface) returns (list: ContivRuleList?)
      requires Valid()
      ensures list == null <==> !Owned(View(), ifName)
      ensures list != null ==> Has(list) && OwnerOf(View(), ifName) == list.id
    {
      OwnerIs(ifName);
      list := if ifName in byInterface then byInterface[ifName] else null;
    }

    lemma ViewKeys()
      ensures View().Keys == byID.Keys
    {
    }

    lemma IdsAgree(id: string)
      requires Valid() && id in byID
      ensures byID[id].id == id && Has(byID[id])
    {
    }

    lemma NotHeld(list: ContivRuleList)
      requires Valid() && !Has(list)
      ensures list !in byID.Values
    {
    }

    lemma ViewAt(list: ContivRuleList)
      requires Has(list)
      ensures list.id in View() && View()[list.id] == list.AsEntry()
    {
    }

    method SetOwner(ifName: Iface, list: ContivRuleList)
      requires Linked() && Has(list)
      modifies `byInterface
      ensures Linked() && Owners() == old(Owners())[ifName := list.id]
    {
      byInterface := byInterface[ifName := list];
    }

    method DeleteOwner(ifName: Iface)
      requires Linked()
      modifies `byInterface
      ensures Linked() && Owners() == old(Owners()) - {ifName}
    {
      byInterface := byInterface - {ifName};
    }

    method DeleteOwners(ifaces: set<Iface>)
      requires forall i :: i in byInterface && i !in ifaces ==> Has(byInterface[i])
      modifies `byInterface
      ensures Linked() && Owners() == old(Owners()) - ifaces
    {
      byInterface := byInterface - ifaces;
    }

    lemma OthersOwn(ruleList: ContivRuleList)
      requires Assigned() && Has(ruleList)
      ensures forall i :: i in byInterface && i !in ruleList.interfaces ==>
                Has(byInterface[i]) && byInterface[i].id != ruleList.id
    {
      ViewAt(ruleList);
      forall i | i in byInterface ensures i in ruleList.interfaces <==> byInterface[i].id == ruleList.id {
        AgreeAt(Owners(), View(), ruleList.id, i);
      }
    }

    /** Replaces the set of interfaces of one list; the index by interface is up to the caller. */
    method SetInterfaces(list: ContivRuleList, interfaces: set<Iface>)
      requires Indexed() && Has(list)
      modifies list`interfaces
      ensures View() == old(View())[list.id := old(View())[list.id].(ifaces := interfaces)]
      ensures list.interfaces == interfaces
    {
      hide CompareRuleLists, SortedLists, Slots;
      list.interfaces := interfaces;
      assert forall id :: id in byID && id != list.id ==> byID[id] != list;
    }

    method SetPrivate(list: ContivRuleList, priv: Option<AclBody>)
      requires Valid() && Has(list)
      modifies list`priv
      ensures Valid()
      ensures View() == old(View())[list.id := old(View())[list.id].(priv := priv)]
    {
      hide CompareRuleLists, SortedLists, Slots;
      ghost var v := View();
      list.priv := priv;
      assert forall id :: id in byID && id != list.id ==> byID[id] != list;
      assert forall id, i :: Owns(View(), id, i) <==> Owns(v, id, i);
    }

    /** A nil list matches any list. */
    method UnassignInterface(ruleList: ContivRuleList?, ifName: Iface)
      requires Valid() && (ruleList != null ==> Has(ruleList))
      modifies `byInterface, byID.Values
      ensures Valid()
      ensures View() == if ruleList == null then Without(old(View()), {ifName})
                        else Unassign(old(View()), ruleList.id, ifName)
      ensures Owners() == if ruleList == null || Owns(old(View()), ruleList.id, ifName) then old(Owners()) - {ifName}
                          else old(Owners())
    {
      hide CompareRuleLists, SortedLists, Slots, Agree, Without, Indexed, Owns, View;
      ghost var v, owners := View(), Owners();
      AgreeWithout(owners, v, ifName);
      if ruleList != null {
        ViewAt(ruleList);
        AgreeUnassign(owners, v, ruleList.id, ifName);
        AgreeAt(owners, v, ruleList.id, ifName);
        SetInterfaces(ruleList, ruleList.interfaces - {ifName});
        assert View() == Unassign(v, ruleList.id, ifName);
      }
      if ifName in byInterface {
        var list := byInterface[ifName];
        ViewAt(list);
        if ruleList == null || ruleList == list {
          SetInterfaces(list, list.interfaces - {ifName});
          assert v[list.id].ifaces - {ifName} - {ifName} == v[list.id].ifaces - {ifName};
          DeleteOwner(ifName);
          assert View() == Unassign(v, list.id, ifName);
        }
      }
    }

    method AssignInterface(ruleList: ContivRuleList, ifName: Iface)
      requires Valid() && Has(ruleList)
      modifies `byInterface, byID.Values
      ensures Valid() && View() == Assign(old(View()), ruleList.id, ifName)
    {
      hide CompareRuleLists, SortedLists, Slots, Agree, Without, Indexed, Owns, View, Linked, Owners;
      ghost var v, owners := View(), Owners();
      ViewAt(ruleList);
      AgreeAssign(owners, v, ruleList.id, ifName);
      UnassignInterface(null, ifName);
      ViewAt(ruleList);
      ghost var w, o := View(), Owners();
      SetInterfaces(ruleList, ruleList.interfaces + {ifName});
      SetOwner(ifName, ruleList);
      assert View() == w[ruleList.id := w[ruleList.id].(ifaces := w[ruleList.id].ifaces + {ifName})];
      assert Owners() == o[ifName := ruleList.id] == owners[ifName := ruleList.id];
    }

    /** Puts a list into the order and the index by ID. */
    method PlaceAt(ruleList: ContivRuleList, idx: nat)
      requires Indexed() && ruleList.id !in byID && LowerBound(Items(), ruleList.rules, idx)
      requires forall x :: x in Items() ==> x.rules != ruleList.rules
      modifies `ruleLists, `numItems, `byID
      ensures Indexed() && byID == old(byID)[ruleList.id := ruleList]
      ensures View() == old(View())[ruleList.id := ruleList.AsEntry()]
      ensures old(Compact()) ==> Compact()
    {
      hide CompareRuleLists, SortedLists, IndexedBy;
      IndexedInsert(Items(), byID, ruleList, idx);
      ghost var v := View();
      InsertedValues(ruleLists, numItems, idx, ruleList);
      ghost var slots := InsertedSlots(ruleLists, numItems, idx, ruleList);
      assert idx <= numItems <= |ruleLists| by { assert LowerBound(Items(), ruleList.rules, idx); }
      if numItems == |ruleLists| {
        ruleLists := ruleLists + [None];
      }
      // copy(ruleLists[idx+1:], ruleLists[idx:]); ruleLists[idx] = ruleList
      ruleLists := ruleLists[..idx] + [Some(ruleList)] + ruleLists[idx..|ruleLists| - 1];
      assert ruleLists == slots;
      numItems := numItems + 1;
      byID := byID[ruleList.id := ruleList];
      assert View() == v[ruleList.id := ruleList.AsEntry()];
    }

    /** Rejects a list whose rules are already there.  The source registers the list before it
        takes the interfaces over one by one; the order makes no difference. */
    method Insert(ruleList: ContivRuleList) returns (inserted: bool)
      requires Valid() && ruleList.id !in byID
      modifies this, byID.Values
      ensures Valid() && (old(Compact()) ==> Compact())
      ensures inserted <==> !HasRules(old(View()), ruleList.rules)
      ensures !inserted ==> byID == old(byID) && View() == old(View())
      ensures inserted ==> byID == old(byID)[ruleList.id := ruleList]
      ensures inserted ==> View() == AclLists.Insert(old(View()), ruleList.id, old(ruleList.AsEntry()))
    {
      hide CompareRuleLists, SortedLists, Agree, Without, Owns, View;
      var idx := LookupIdxByRules(ruleList.rules);
      SearchDecides(ruleList.rules, idx);
      if idx < numItems && CompareRuleLists(ruleList.rules, ruleLists[idx].value.rules) == 0 {
        return false;
      }
      var todo := ruleList.interfaces;
      ghost var v, entry := View(), ruleList.AsEntry();
      ViewKeys();
      assert ruleList !in byID.Values && ruleList.interfaces - todo == {};
      WithoutNothing(v);
      while todo != {}
        invariant todo <= ruleList.interfaces && ruleList.AsEntry() == entry
        invariant Valid() && byID == old(byID) && ruleLists == old(ruleLists) && numItems == old(numItems)
        invariant View() == Without(v, ruleList.interfaces - todo)
        decreases todo
      {
        var iface :| iface in todo;
        WithoutMore(v, ruleList.interfaces - todo, iface);
        assert ruleList.interfaces - (todo - {iface}) == ruleList.interfaces - todo + {iface};
        UnassignInterface(null, iface);
        todo := todo - {iface};
      }
      assert ruleList.interfaces - todo == ruleList.interfaces;
      PlaceAt(ruleList, idx);
      TakeOver(ruleList, v);
      return true;
    }

    /** Registers the interfaces of a list that no other list has any more. */
    method TakeOver(ruleList: ContivRuleList, ghost v: Lists)
      requires Indexed() && Linked() && Has(ruleList) && ruleList.id !in v
      requires View() == AclLists.Insert(v, ruleList.id, ruleList.AsEntry())
      requires Agree(Owners(), Without(v, ruleList.interfaces))
      modifies `byInterface
      ensures Valid()
    {
      hide CompareRuleLists, SortedLists, Slots, Agree, Without, Indexed, View;
      ghost var owners := Owners();
      AgreeInsert(owners, v, ruleList.id, ruleList.AsEntry());
      byInterface := byInterface + (map i | i in ruleList.interfaces :: ruleList);
      assert Owners() == owners + (map i | i in ruleList.interfaces :: ruleList.id);
    }

    lemma SearchDecides(rules: Slice, idx: nat)
      requires Valid() && LowerBound(Items(), rules, idx)
      ensures (idx < numItems && CompareRuleLists(rules, ruleLists[idx].value.rules) == 0) <==> HasRules(View(), rules)
      ensures !HasRules(View(), rules) ==> forall x :: x in Items() ==> x.rules != rules
    {
      hide CompareRuleLists, SortedLists, Agree;
      LowerBoundFinds(Items(), rules, idx);
      if idx < numItems && CompareRuleLists(rules, ruleLists[idx].value.rules) == 0 {
        assert Items()[idx] in Items();
        assert View()[Items()[idx].id].rules == rules;
      } else {
        forall id | id in byID ensures View()[id].rules != rules {
          assert byID[id] in Items();
        }
      }
    }

    /** Takes a list out of the order and the index by ID. */
    method CutAt(idx: nat)
      requires Indexed() && idx < numItems
      modifies `ruleLists, `numItems, `byID
      ensures Indexed() && byID == old(byID) - {old(Items())[idx].id}
      ensures Items() == old(Items())[..idx] + old(Items())[idx + 1..]
      ensures View() == old(View()) - {old(Items())[idx].id}
    {
      hide CompareRuleLists, SortedLists, IndexedBy;
      var ruleList := ruleLists[idx].value;
      ghost var v := View();
      IndexedRemove(Items(), byID, idx);
      ShiftLeft(ruleLists, numItems, idx);
      ghost var slots := (ruleLists[..idx] + ruleLists[idx + 1..] + [ruleLists[|ruleLists| - 1]])[numItems - 1 := None];
      // copy(ruleLists[idx:], ruleLists[idx+1:]); the freed slot becomes nil
      if idx < numItems - 1 {
        ruleLists := ruleLists[..idx] + ruleLists[idx + 1..] + [ruleLists[|ruleLists| - 1]];
      }
      numItems := numItems - 1;
      ruleLists := ruleLists[numItems := None];
      assert ruleLists == slots;
      byID := byID - {ruleList.id};
      assert View() == v - {ruleList.id};
    }

    method RemoveByIdx(idx: nat) returns (removed: bool)
      requires Valid()
      modifies this
      ensures Valid()
      ensures removed <==> idx < old(numItems)
      ensures View() == if removed then old(View()) - {old(Items())[idx].id} else old(View())
      ensures byID == if removed then old(byID) - {old(Items())[idx].id} else old(byID)
      ensures Items() == if removed then old(Items())[..idx] + old(Items())[idx + 1..] else old(Items())
    {
      hide CompareRuleLists, SortedLists, Agree, View, Owners, IndexedBy;
      if idx < numItems {
        var ruleList := ruleLists[idx].value;
        ghost var v, owners := View(), Owners();
        assert ruleList == Items()[idx] && Has(ruleList) by { ItemHas(Items(), byID, idx); }
        ViewAt(ruleList);
        AgreeRemove(owners, v, ruleList.id);
        OthersOwn(ruleList);
        CutAt(idx);
        DeleteOwners(ruleList.interfaces);
        return true;
      }
      return false;
    }

    /** Looks for the very object, not for a list with the same ID. */
    method Remove(ruleList: ContivRuleList) returns (removed: bool)
      requires Valid()
      modifies this
      ensures Valid()
      ensures removed <==> old(Has(ruleList))
      ensures View() == if removed then old(View()) - {ruleList.id} else old(View())
      ensures byID == if removed then old(byID) - {ruleList.id} else old(byID)
      ensures !removed ==> unchanged(this)
    {
      hide CompareRuleLists, SortedLists, Agree, Owns;
      for listIdx := 0 to |ruleLists|
        invariant Valid() && unchanged(this)
        invariant Some(ruleList) !in ruleLists[..listIdx]
      {
        if ruleLists[listIdx] == Some(ruleList) {
          assert Items()[listIdx] == ruleList;
          removed := RemoveByIdx(listIdx);
          return;
        }
      }
      assert forall k :: 0 <= k < numItems ==> ruleLists[..|ruleLists|][k] == ruleLists[k] == Some(Items()[k]);
      return false;
    }

    /** Removes exactly the lists that satisfy the predicate and says how many. */
    method RemoveByPredicate(drop: (string, Entry) -> bool) returns (count: nat)
      requires Valid()
      modifies this
      ensures Valid() && count == old(numItems) - numItems
      ensures View() == Filtered(drop, old(View()))
    {
      hide CompareRuleLists, SortedLists, Agree, View, Filtering, Filtered, IndexedBy;
      var listIdx := 0;
      count := 0;
      ghost var v := View();
      FilterNothing(drop, v, Items());
      while listIdx < numItems
        invariant Valid() && listIdx <= numItems && count == old(numItems) - numItems
        invariant Filtering(drop, v, View(), Items(), listIdx)
        decreases numItems - listIdx
      {
        var ruleList := ruleLists[listIdx].value;
        assert Has(ruleList) by { assert ruleList == Items()[listIdx]; ItemHas(Items(), byID, listIdx); }
        ViewAt(ruleList);
        FilterNext(drop, v, View(), Items(), byID, listIdx);
        if drop(ruleList.id, ruleList.AsEntry()) {
          var _ := RemoveByIdx(listIdx);
          count := count + 1;
        } else {
          listIdx := listIdx + 1;
        }
      }
      ViewKeys();
      FilterAll(drop, v, View(), Items(), byID);
    }
  }

  ghost function Filtered(drop: (string, Entry) -> bool, v: Lists): Lists {
    map id | id in v && !drop(id, v[id]) :: v[id]
  }

  /** w is v without some lists to be dropped, and the first n lists are to be kept. */
  ghost predicate Filtering(drop: (string, Entry) -> bool, v: Lists, w: Lists, s: seq<ContivRuleList>, n: nat) {
    && n <= |s|
    && (forall id :: id in w ==> id in v && w[id] == v[id])
    && (forall id :: id in v && id !in w ==> drop(id, v[id]))
    && (forall k :: 0 <= k < n ==> s[k].id in w && !drop(s[k].id, w[s[k].id]))
  }

  lemma FilterNothing(drop: (string, Entry) -> bool, v: Lists, s: seq<ContivRuleList>)
    ensures Filtering(drop, v, v, s, 0)
  {
  }

  lemma ItemHas(s: seq<ContivRuleList>, byID: map<string, ContivRuleList>, n: nat)
    requires IndexedBy(s, byID) && n < |s|
    ensures s[n].id in byID && byID[s[n].id] == s[n]
  {
    assert s[n] in s;
  }

  lemma FilterNext(drop: (string, Entry) -> bool, v: Lists, w: Lists, s: seq<ContivRuleList>, byID: map<string, ContivRuleList>, n: nat)
    requires Filtering(drop, v, w, s, n) && IndexedBy(s, byID) && n < |s| && s[n].id in w
    ensures if drop(s[n].id, w[s[n].id]) then Filtering(drop, v, w - {s[n].id}, s[..n] + s[n + 1..], n)
            else Filtering(drop, v, w, s, n + 1)
  {
    hide CompareRuleLists;
    forall k | 0 <= k < n ensures s[k].id != s[n].id {
      ItemHas(s, byID, k);
      ItemHas(s, byID, n);
      CompareListsOrder(s[n].rules, s[n].rules, s[n].rules);
    }
  }

  lemma FilterAll(drop: (string, Entry) -> bool, v: Lists, w: Lists, s: seq<ContivRuleList>, byID: map<string, ContivRuleList>)
    requires Filtering(drop, v, w, s, |s|) && IndexedBy(s, byID) && w.Keys == byID.Keys
    ensures w == Filtered(drop, v)
  {
    hide SortedLists;
    forall id | id in w ensures !drop(id, w[id]) {
      var k :| 0 <= k < |s| && s[k] == byID[id];
    }
  }
}
