/** Resynchronisation of the ACL cache with VPP: dump, validation and reload
    (plugins/policy/renderer/acl/acl_renderer.go, plugins/policy/renderer/acl/cache/cache_impl.go). */
module AclResync {
  import opened Base
  import opened VppAcl
  import opened AclLists
  import opened AclRuleLists
  import opened AclRenderer
  import opened AclRuns
  import opened AclTxn

  function Names<V>(list: seq<(string, V)>): set<string> {
    set k | 0 <= k < |list| :: list[k].0
  }

  lemma NamesSnoc<V>(list: seq<(string, V)>, x: (string, V))
    ensures Names(list + [x]) == Names(list) + {x.0}
  {
    var l := list + [x];
    forall id ensures id in Names(l) <==> id in Names(list) || id == x.0 {
      if id in Names(list) {
        var k :| 0 <= k < |list| && list[k].0 == id;
        assert l[k].0 == id;
      }
      if id == x.0 { assert l[|list|].0 == id; }
    }
  }

  ghost predicate Distinct<V>(list: seq<(string, V)>) {
    forall j, k :: 0 <= j < k < |list| ==> list[j].0 != list[k].0
  }

  ghost predicate Entries<V>(list: seq<(string, V)>, v: map<string, V>) {
    forall k :: 0 <= k < |list| ==> list[k].0 in v && v[list[k].0] == list[k].1
  }

  /** A sequence with every entry of a map once. */
  ghost predicate Listing<V>(list: seq<(string, V)>, v: map<string, V>) {
    Entries(list, v) && Names(list) == v.Keys && Distinct(list)
  }

  // ----- Dump -----

  /** The entries of one direction among the first n ACLs. */
  ghost predicate Dumping(list: seq<(string, Entry)>, v: Lists, dump: seq<(string, Acl)>, n: nat)
    requires n <= |dump|
  {
    Entries(list, v) && Names(list) == Names(dump[..n]) * v.Keys && Distinct(list)
  }

  lemma DumpMore(list: seq<(string, Entry)>, v: Lists, dump: seq<(string, Acl)>, n: nat)
    requires n < |dump| && Dumping(list, v, dump, n) && Distinct(dump)
    ensures dump[n].0 !in v ==> Dumping(list, v, dump, n + 1)
    ensures dump[n].0 in v ==> Dumping(list + [(dump[n].0, v[dump[n].0])], v, dump, n + 1)
  {
    hide Names;
    assert dump[..n + 1] == dump[..n] + [dump[n]];
    NamesSnoc(dump[..n], dump[n]);
    NewName(dump, n);
    if dump[n].0 in v {
      NamesSnoc(list, (dump[n].0, v[dump[n].0]));
      DistinctSnoc(list, (dump[n].0, v[dump[n].0]));
    }
  }

  lemma NewName(dump: seq<(string, Acl)>, n: nat)
    requires n < |dump| && Distinct(dump)
    ensures dump[n].0 !in Names(dump[..n])
  {
  }

  lemma DistinctSnoc<V>(list: seq<(string, V)>, x: (string, V))
    requires Distinct(list) && x.0 !in Names(list)
    ensures Distinct(list + [x])
  {
    assert forall k :: 0 <= k < |list| ==> list[k].0 in Names(list);
  }

  /** dumpVppACLConfig: every ACL with interfaces becomes one list of its direction. */
  method DumpVppACLConfig(dump: seq<(string, Acl)>, ghost t: Table)
    returns (ingress: seq<(string, Entry)>, egress: seq<(string, Entry)>)
    requires Listing(dump, t)
    ensures Listing(ingress, Rebuilt(t, Ingress)) && Listing(egress, Rebuilt(t, Egress))
  {
    hide DumpAll, Dumping, InterfacesOf, Distinct, Names;
    ingress, egress := [], [];
    ghost var vin, veg := Rebuilt(t, Ingress), Rebuilt(t, Egress);
    assert Dumping([], vin, dump, 0) && Dumping([], veg, dump, 0) by { DumpNothing(vin, dump); DumpNothing(veg, dump); }
    for n := 0 to |dump|
      invariant Dumping(ingress, vin, dump, n) && Dumping(egress, veg, dump, n)
    {
      DumpMore(ingress, vin, dump, n);
      DumpMore(egress, veg, dump, n);
      var (name, acl) := dump[n];
      var direction := DumpDirection(acl);
      if direction.None? {
        continue;
      }
      var rules := DumpRules(acl.rules);
      var list := (name, Entry(Some(rules), InterfacesOf(acl, direction.value), Some(AclBody(name, acl.rules))));
      if direction.value == Ingress {
        ingress := ingress + [list];
      } else {
        egress := egress + [list];
      }
    }
    assert dump[..|dump|] == dump;
    DumpDone(ingress, vin, dump, t);
    DumpDone(egress, veg, dump, t);
  }

  lemma DumpNothing(v: Lists, dump: seq<(string, Acl)>)
    ensures Dumping([], v, dump, 0)
  {
  }

  lemma DumpDone(list: seq<(string, Entry)>, v: Lists, dump: seq<(string, Acl)>, t: Table)
    requires Dumping(list, v, dump, |dump|) && Listing(dump, t) && forall id :: id in v ==> id in t
    ensures Listing(list, v)
  {
    hide Names, Entries, Distinct;
    assert dump[..|dump|] == dump;
  }

  // ----- Resync -----

  /** What Resync makes of the lists of one direction; None if it fails. */
  ghost function Load(lists: seq<(string, Entry)>, d: Direction): Option<Lists> {
    if lists == [] then Some(map[])
    else
      var loaded := Load(lists[..|lists| - 1], d);
      var (id, e) := lists[|lists| - 1];
      if loaded.None? then None
      else if e.ifaces == {} then loaded
      else if !HasName(id, d) || id in loaded.value || HasRules(loaded.value, e.rules) then None
      else Some(AclLists.Insert(loaded.value, id, e))
  }

  /** Lists without interfaces are skipped. */
  predicate Used(lists: seq<(string, Entry)>, k: nat) {
    k < |lists| && lists[k].1.ifaces != {}
  }

  ghost predicate Compatible(lists: seq<(string, Entry)>, d: Direction, k: nat)
    requires k < |lists|
  {
    && HasName(lists[k].0, d)
    && forall j: nat :: j < k && Used(lists, j) ==> lists[j].0 != lists[k].0 && lists[j].1.rules != lists[k].1.rules
  }

  /** All lists in use have the prefix of the direction, and their IDs and rules differ. */
  ghost predicate Loadable(lists: seq<(string, Entry)>, d: Direction) {
    forall k: nat :: Used(lists, k) ==> Compatible(lists, d, k)
  }

  /** What is loaded are the lists in use, with their rules. */
  ghost predicate Holds(v: Lists, lists: seq<(string, Entry)>) {
    && (forall id :: id in v ==> exists k: nat :: Used(lists, k) && lists[k].0 == id && lists[k].1.rules == v[id].rules)
    && (forall k: nat :: Used(lists, k) ==> lists[k].0 in v && v[lists[k].0].rules == lists[k].1.rules)
  }

  /** Resync succeeds if and only if the lists in use are compatible with each other. */
  lemma {:induction false} LoadSucceedsIff(lists: seq<(string, Entry)>, d: Direction)
    ensures Load(lists, d).Some? <==> Loadable(lists, d)
    ensures Load(lists, d).Some? ==> Holds(Load(lists, d).value, lists)
  {
    hide HasName;
    if lists != [] {
      var n := |lists| - 1;
      var init := lists[..n];
      LoadSucceedsIff(init, d);
      LoadableSnoc(lists, d);
      if Load(init, d).Some? {
        HoldsSnoc(Load(init, d).value, lists, d);
      }
    }
  }

  lemma LoadableSnoc(lists: seq<(string, Entry)>, d: Direction)
    requires lists != []
    ensures var n := |lists| - 1; Loadable(lists, d) <==> Loadable(lists[..n], d) && (Used(lists, n) ==> Compatible(lists, d, n))
  {
    hide HasName;
    var n := |lists| - 1;
    var init := lists[..n];
    forall k: nat | k < n ensures (Used(init, k) <==> Used(lists, k)) && (Compatible(init, d, k) <==> Compatible(lists, d, k)) {
      assert forall j: nat :: j < k ==> (Used(init, j) <==> Used(lists, j));
    }
  }

  lemma HoldsSnoc(v: Lists, lists: seq<(string, Entry)>, d: Direction)
    requires lists != [] && Holds(v, lists[..|lists| - 1])
    ensures var n := |lists| - 1; var (id, e) := lists[n];
            && (e.ifaces == {} ==> Holds(v, lists))
            && (Used(lists, n) ==> (Compatible(lists, d, n) <==> HasName(id, d) && id !in v && !HasRules(v, e.rules)))
            && (Used(lists, n) && Compatible(lists, d, n) ==> Holds(AclLists.Insert(v, id, e), lists))
  {
    hide HasName;
    var n := |lists| - 1;
    var init, id, e := lists[..n], lists[n].0, lists[n].1;
    assert forall k: nat :: k < n ==> (Used(init, k) <==> Used(lists, k)) && init[k] == lists[k];
    if Used(lists, n) && Compatible(lists, d, n) {
      HoldsMore(v, lists, d);
    }
  }

  lemma HoldsMore(v: Lists, lists: seq<(string, Entry)>, d: Direction)
    requires lists != [] && Holds(v, lists[..|lists| - 1]) && Used(lists, |lists| - 1) && Compatible(lists, d, |lists| - 1)
    ensures Holds(AclLists.Insert(v, lists[|lists| - 1].0, lists[|lists| - 1].1), lists)
  {
    hide HasName, AclLists.Insert, Compatible;
    var n := |lists| - 1;
    var init, id, e := lists[..n], lists[n].0, lists[n].1;
    var w := AclLists.Insert(v, id, e);
    InsertRules(v, id, e);
    forall x | x in w ensures exists k: nat :: Used(lists, k) && lists[k].0 == x && lists[k].1.rules == w[x].rules {
      if x == id {
        assert Used(lists, n) && lists[n].0 == x;
      } else {
        var k: nat :| Used(init, k) && init[k].0 == x && init[k].1.rules == v[x].rules;
        assert Used(lists, k) && lists[k].0 == x;
      }
    }
    forall k: nat | Used(lists, k) ensures lists[k].0 in w && w[lists[k].0].rules == lists[k].1.rules {
      if k < n {
        assert Used(init, k) && init[k] == lists[k];
        EarlierDiffers(lists, d, k);
      }
    }
  }

  lemma EarlierDiffers(lists: seq<(string, Entry)>, d: Direction, k: nat)
    requires lists != [] && Compatible(lists, d, |lists| - 1) && Used(lists, k) && k < |lists| - 1
    ensures lists[k].0 != lists[|lists| - 1].0
  {
  }

  lemma InsertRules(v: Lists, id: string, e: Entry)
    ensures var w := AclLists.Insert(v, id, e);
            w.Keys == v.Keys + {id} && w[id] == e && forall x :: x in v && x != id ==> w[x].rules == v[x].rules
  {
  }

  /** A dump of rendered ACLs is loaded as it is. */
  lemma {:induction false} LoadExact(lists: seq<(string, Entry)>, v: Lists, d: Direction)
    requires Listing(lists, v) && Wf(v) && Named(v, d) && forall id :: id in v ==> v[id].ifaces != {}
    ensures Load(lists, d) == Some(v)
  {
    hide HasName, Wf, AclLists.Insert, HasRules;
    if lists == [] {
      assert v == map[];
    } else {
      var n := |lists| - 1;
      var id, e := lists[n].0, lists[n].1;
      var w := v - {id};
      ListingLess(lists, v);
      assert Wf(w) by { WfLess(v, id); }
      LoadExact(lists[..n], w, d);
      assert id in v && v[id] == e;
      LoadLast(v, id);
    }
  }

  lemma WfLess(v: Lists, id: string)
    requires Wf(v)
    ensures Wf(v - {id})
  {
  }

  lemma LoadLast(v: Lists, id: string)
    requires Wf(v) && id in v
    ensures !HasRules(v - {id}, v[id].rules) && AclLists.Insert(v - {id}, id, v[id]) == v
  {
    var w := v - {id};
    forall i | i in v[id].ifaces ensures !Owned(w, i) {
    }
    InsertTakesNothing(w, id, v[id]);
    assert w[id := v[id]] == v;
  }

  lemma ListingLess(lists: seq<(string, Entry)>, v: Lists)
    requires Listing(lists, v) && lists != []
    ensures Listing(lists[..|lists| - 1], v - {lists[|lists| - 1].0})
  {
    var l, last := lists[..|lists| - 1], lists[|lists| - 1];
    assert lists == l + [last];
    NamesSnoc(l, last);
    assert last.0 !in Names(l);
    assert Names(l) == (v - {last.0}).Keys;
  }

  /** The allocated suffixes are exactly those of the lists. */
  ghost predicate ExactlyAllocated(v: Lists, d: Direction, used: set<string>) {
    Allocated(v, d, used) && forall suffix :: suffix in used ==> DirName(d) + suffix in v
  }

  lemma InterfacesAfterInsert(v: Lists, id: string, e: Entry)
    requires id !in v
    ensures InterfacesIn(AclLists.Insert(v, id, e)) == InterfacesIn(v) + e.ifaces
  {
    var w := AclLists.Insert(v, id, e);
    forall i ensures i in InterfacesIn(w) <==> i in InterfacesIn(v) + e.ifaces {
      if i in e.ifaces {
        assert i in w[id].ifaces;
      } else if i in InterfacesIn(v) {
        var x :| x in v && i in v[x].ifaces;
        assert i in w[x].ifaces;
      }
    }
  }

  lemma AllocatedAfterInsert(v: Lists, id: string, e: Entry, d: Direction, used: set<string>)
    requires ExactlyAllocated(v, d, used) && HasName(id, d)
    ensures ExactlyAllocated(AclLists.Insert(v, id, e), d, used + {id[|DirName(d)|..]})
    ensures id in v <==> id[|DirName(d)|..] in used
  {
    assert id == DirName(d) + id[|DirName(d)|..];
  }

  /** The loop of Resync for one direction. */
  method LoadLists(lists: seq<(string, Entry)>, d: Direction)
    returns (ok: bool, loaded: ContivRuleLists, used: set<string>, interfaces: set<Iface>)
    ensures ok <==> Load(lists, d).Some?
    ensures fresh(loaded) && fresh(loaded.byID.Values)
    ensures ok ==> loaded.Valid() && loaded.View() == Load(lists, d).value
    ensures ok ==> Allocated(loaded.View(), d, used) && interfaces == InterfacesIn(loaded.View())
  {
    hide ContivRuleLists.Valid, ContivRuleLists.View, HasRules, AclLists.Insert, InterfacesIn, ExactlyAllocated, DirName;
    loaded := new ContivRuleLists();
    used, interfaces := {}, {};
    NothingLoaded(d);
    assert Load(lists[..0], d) == Some(map[]);
    for n := 0 to |lists|
      invariant loaded.Valid() && Load(lists[..n], d) == Some(loaded.View())
      invariant fresh(loaded) && fresh(loaded.byID.Values)
      invariant ExactlyAllocated(loaded.View(), d, used) && interfaces == InterfacesIn(loaded.View())
    {
      assert lists[..n + 1][..n] == lists[..n];
      var (id, e) := lists[n];
      if e.ifaces == {} {
        continue;
      }
      if !HasName(id, d) {
        LoadFails(lists, n + 1, d);
        return false, loaded, used, interfaces;
      }
      var suffix := id[|DirName(d)|..];
      ghost var v := loaded.View();
      AllocatedAfterInsert(v, id, e, d, used);
      loaded.ViewKeys();
      if suffix in used {
        LoadFails(lists, n + 1, d);
        return false, loaded, used, interfaces;
      }
      used := used + {suffix};
      InterfacesAfterInsert(v, id, e);
      var list := new ContivRuleList(id, e.rules, e.ifaces, e.priv);
      ghost var values := loaded.byID.Values;
      var inserted := loaded.Insert(list);
      assert loaded.byID.Values <= values + {list};
      if !inserted {
        LoadFails(lists, n + 1, d);
        return false, loaded, used, interfaces;
      }
      interfaces := interfaces + e.ifaces;
    }
    assert lists[..|lists|] == lists;
    assert Allocated(loaded.View(), d, used) by { ExactIsAllocated(loaded.View(), d, used); }
    ok := true;
  }

  lemma NothingLoaded(d: Direction)
    ensures ExactlyAllocated(map[], d, {}) && InterfacesIn(map[]) == {}
  {
  }

  lemma ExactIsAllocated(v: Lists, d: Direction, used: set<string>)
    requires ExactlyAllocated(v, d, used)
    ensures Allocated(v, d, used)
  {
  }

  /** Once a list is refused the whole resync fails. */
  lemma {:induction false} LoadFails(lists: seq<(string, Entry)>, n: nat, d: Direction)
    requires n <= |lists| && Load(lists[..n], d).None?
    ensures Load(lists, d).None?
    decreases |lists|
  {
    if n < |lists| {
      assert lists[..|lists| - 1][..n] == lists[..n];
      LoadFails(lists[..|lists| - 1], n, d);
    } else {
      assert lists[..n] == lists;
    }
  }
}
