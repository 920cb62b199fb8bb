/** Whole runs of the ACL renderer: after any sequence of transactions, resynchronisations and
    restarts, every interface is bound to exactly the ACL of the rules rendered last for it
    (plugins/policy/renderer/acl/acl_renderer.go). */
module AclRuns {
  import opened Base
  import opened Rules
  import opened VppAcl
  import opened AclMeaning
  import opened AclLists
  import opened AclRenderer

  // ----- Rules of an interface, in the cache and in VPP -----

  /** No list and a list without rules are the same to VPP. */
  ghost function RulesOf(v: Lists, i: Iface): seq<Rule> {
    if Owned(v, i) then Contents(v[OwnerOf(v, i)].rules) else []
  }

  lemma RulesOfOwner(v: Lists, id: string, i: Iface)
    requires Wf(v) && Owns(v, id, i)
    ensures RulesOf(v, i) == Contents(v[id].rules)
  {
  }

  /** VPP applies an ACL to the packets that enter by its ingress interfaces and to those that leave
      by its egress interfaces. */
  ghost predicate Bound(t: Table, d: Direction, i: Iface, name: string) {
    && name in t
    && match d
       case Ingress => i in t[name].interfaces.ingress
       case Egress => i in t[name].interfaces.egress
  }

  /** The interface is bound to exactly one ACL, which has the given rules, or to none if there
      are no rules. */
  ghost predicate Binds(t: Table, d: Direction, i: Iface, rules: seq<Rule>) {
    if rules == [] then forall name :: !Bound(t, d, i, name)
    else exists name :: Bound(t, d, i, name) && t[name].rules == RenderAll(rules) &&
           forall other :: Bound(t, d, i, other) ==> other == name
  }

  /** A transaction that is committed gives the updated interfaces their rules. */
  lemma CommitSets(base: Lists, updated: map<Iface, Slice>, b: Lists, i: Iface)
    requires Refines(base, updated, b) && Wf(base)
    ensures RulesOf(b, i) == if i in updated then Contents(updated[i]) else RulesOf(base, i)
  {
    if i in updated {
      var id :| Owns(b, id, i) && b[id].rules == updated[i];
      RulesOfOwner(b, id, i);
    } else if Owned(base, i) {
      var id := OwnerOf(base, i);
      RulesOfOwner(base, id, i);
      RulesOfOwner(b, id, i);
    } else {
      assert forall id :: Owns(b, id, i) ==> Owns(base, id, i);
    }
  }

  /** If all changes are filtered out, the cache already has the wanted rules although the
      transaction is never committed. */
  lemma SkipSets(head: Lists, base: Lists, updated: map<Iface, Slice>, i: Iface)
    requires Head(head, base, updated) && (forall id :: !Changed(head, base, id)) && i in updated
    ensures RulesOf(base, i) == Contents(updated[i])
  {
    var x :| Owns(head, x, i) && head[x].rules == updated[i];
    if Renderable(head[x]) {
      assert !Changed(head, base, x);
      assert Owns(base, x, i);
      RulesOfOwner(base, x, i);
    } else if Owned(base, i) {
      var y := OwnerOf(base, i);
      assert y in head && !Changed(head, base, y);
      assert Renderable(head[y]) ==> Owns(head, y, i);
      RulesOfOwner(base, y, i);
    }
  }

  lemma TableBinds(v: Lists, d: Direction, i: Iface)
    requires Wf(v)
    ensures Binds(TableOf(v, d), d, i, RulesOf(v, i))
  {
    hide RenderAll;
    var t := TableOf(v, d);
    forall name | Bound(t, d, i, name) ensures Owns(v, name, i) && RulesOf(v, i) != [] {
      RulesOfOwner(v, name, i);
    }
    if RulesOf(v, i) != [] {
      var id := OwnerOf(v, i);
      RulesOfOwner(v, id, i);
      assert Bound(t, d, i, id);
    }
  }

  // ----- Both directions -----

  function DirName(d: Direction): string { if d == Ingress then "ingress-" else "egress-" }

  predicate HasName(id: string, d: Direction) { DirName(d) <= id }

  ghost predicate Named(v: Lists, d: Direction) {
    forall id :: id in v ==> HasName(id, d)
  }

  lemma NamesDiffer(id: string)
    ensures !(HasName(id, Ingress) && HasName(id, Egress))
  {
    assert HasName(id, Ingress) ==> id[0] == 'i';
    assert HasName(id, Egress) ==> id[0] == 'e';
  }

  ghost predicate CanonicalLists(v: Lists) {
    forall id :: id in v ==> CanonicalRules(Contents(v[id].rules))
  }

  datatype State = State(ingress: Lists, egress: Lists, table: Table)

  function ListsOf(s: State, d: Direction): Lists { if d == Ingress then s.ingress else s.egress }

  ghost predicate GoodLists(v: Lists, d: Direction) {
    Wf(v) && PrivateKept(v) && Named(v, d) && CanonicalLists(v)
  }

  /** The direction that the dump files an ACL under; None if it has no interfaces. */
  function DumpDirection(acl: Acl): Option<Direction> {
    if acl.interfaces.ingress != {} then Some(Ingress)
    else if acl.interfaces.egress != {} then Some(Egress)
    else None
  }

  /** The ACLs that are bound to interfaces; the dump skips the others. */
  function InUse(t: Table): Table {
    map name | name in t && DumpDirection(t[name]).Some? :: t[name]
  }

  /** The ACLs that VPP has in use are exactly those of the lists in the cache. */
  ghost predicate Inv(s: State) {
    && GoodLists(s.ingress, Ingress) && GoodLists(s.egress, Egress)
    && InUse(s.table) == TableOf(s.ingress, Ingress) + TableOf(s.egress, Egress)
  }

  /** The two directions do not interfere in VPP. */
  lemma BothBind(s: State, d: Direction, i: Iface)
    requires Inv(s)
    ensures Binds(s.table, d, i, RulesOf(ListsOf(s, d), i))
  {
    hide RenderAll, Wf, RulesOf, PrivateKept, CanonicalLists, HasName;
    var t := TableOf(ListsOf(s, d), d);
    TableBinds(ListsOf(s, d), d, i);
    var u := InUse(s.table);
    forall name ensures Bound(s.table, d, i, name) <==> Bound(t, d, i, name) {
      NamesDiffer(name);
      assert Bound(s.table, d, i, name) <==> Bound(u, d, i, name);
    }
    forall name | name in t ensures name in s.table && s.table[name] == t[name] {
      NamesDiffer(name);
      assert name in u && u[name] == t[name];
    }
  }

  // ----- Resynchronisation -----

  function DumpAcl(name: string, acl: Acl, d: Direction): Entry {
    Entry(Some(DumpAll(acl.rules)), InterfacesOf(acl, d), Some(AclBody(name, acl.rules)))
  }

  /** The content of the cache after it was rebuilt from VPP. */
  function Rebuilt(t: Table, d: Direction): Lists {
    map name | name in t && DumpDirection(t[name]) == Some(d) :: DumpAcl(name, t[name], d)
  }

  /** Every ACL of the renderer is dumped back into the list it was rendered from. */
  lemma RebuiltEntry(s: State, d: Direction, name: string)
    requires Inv(s)
    ensures name in Rebuilt(s.table, d) <==> name in TableOf(ListsOf(s, d), d)
    ensures name in Rebuilt(s.table, d) ==>
              var e := ListsOf(s, d)[name];
              Rebuilt(s.table, d)[name] == Entry(Some(Contents(e.rules)), e.ifaces, Some(Body(name, e.rules)))
  {
    hide RenderAll, Wf, PrivateKept, HasName, DumpAll;
    NamesDiffer(name);
    var v := ListsOf(s, d);
    assert name in InUse(s.table) <==> name in s.table && DumpDirection(s.table[name]).Some?;
    if name in TableOf(v, d) {
      DumpRenderedAll(Contents(v[name].rules));
    }
  }

  /** w is v without the lists that are not rendered. */
  ghost predicate Live(v: Lists, w: Lists) {
    && (forall id :: id in w <==> id in v && Renderable(v[id]) && v[id].ifaces != {})
    && (forall id :: id in w ==> w[id] == Entry(Some(Contents(v[id].rules)), v[id].ifaces, Some(Body(id, v[id].rules))))
  }

  lemma LiveWf(v: Lists, w: Lists)
    requires Wf(v) && Live(v, w)
    ensures Wf(w)
  {
    hide Body;
    forall a, b | a in w && b in w && a != b ensures w[a].rules != w[b].rules {
      assert v[a].rules != v[b].rules;
    }
  }

  lemma LiveTable(v: Lists, w: Lists, d: Direction)
    requires Live(v, w)
    ensures PrivateKept(w) && TableOf(w, d) == TableOf(v, d)
  {
    hide RenderAll;
  }

  lemma RebuiltGood(s: State, d: Direction)
    requires Inv(s)
    ensures GoodLists(Rebuilt(s.table, d), d) && TableOf(Rebuilt(s.table, d), d) == TableOf(ListsOf(s, d), d)
  {
    hide RenderAll, HasName, DumpAll, Inv, Rebuilt, Wf, PrivateKept;
    var v, w := ListsOf(s, d), Rebuilt(s.table, d);
    InvLists(s, d);
    forall name ensures name in w <==> name in TableOf(v, d)
                ensures name in w ==> w[name] == Entry(Some(Contents(v[name].rules)), v[name].ifaces, Some(Body(name, v[name].rules))) {
      RebuiltEntry(s, d, name);
    }
    assert Live(v, w);
    LiveWf(v, w);
    LiveTable(v, w, d);
  }

  lemma InvLists(s: State, d: Direction)
    requires Inv(s)
    ensures GoodLists(ListsOf(s, d), d)
  {
  }

  /** The rebuilt cache has the same rules for every interface. */
  lemma RebuiltRules(s: State, d: Direction, i: Iface)
    requires Inv(s)
    ensures RulesOf(Rebuilt(s.table, d), i) == RulesOf(ListsOf(s, d), i)
  {
    hide RenderAll, HasName, DumpAll, Inv, Rebuilt, PrivateKept, CanonicalLists, Named, RulesOf;
    var v, w := ListsOf(s, d), Rebuilt(s.table, d);
    InvLists(s, d);
    RebuiltGood(s, d);
    forall name ensures Owns(w, name, i) <==> Owns(v, name, i) && Renderable(v[name]) {
      RebuiltEntry(s, d, name);
    }
    if Owned(v, i) {
      var id := OwnerOf(v, i);
      RulesOfOwner(v, id, i);
      RebuiltEntry(s, d, id);
      if Renderable(v[id]) {
        RulesOfOwner(w, id, i);
      } else {
        NoRules(w, i);
      }
    } else {
      NoRules(v, i);
      NoRules(w, i);
    }
  }

  lemma NoRules(v: Lists, i: Iface)
    requires forall id :: !Owns(v, id, i)
    ensures RulesOf(v, i) == []
  {
  }

  // ----- Tables that the renderer did not build itself -----

  /** Every ACL with interfaces is bound in one direction and has only rules that the renderer
      produces, at least one. */
  predicate Recognised(acl: Acl) {
    && (acl.interfaces.ingress == {} || acl.interfaces.egress == {})
    && acl.rules != [] && forall k :: 0 <= k < |acl.rules| ==> Renders(acl.rules[k])
  }

  ghost predicate AllRecognised(t: Table) {
    forall name :: name in t && DumpDirection(t[name]).Some? ==> Recognised(t[name])
  }

  /** What the cache believes after it was rebuilt is what VPP does. */
  ghost predicate Truthful(t: Table) {
    forall d, i :: Binds(t, d, i, RulesOf(Rebuilt(t, d), i))
  }

  /** If the ACLs of a direction neither have the same rules nor share interfaces, the rebuilt cache
      believes what VPP does if and only if it recognises all ACLs. */
  lemma TruthfulIff(t: Table)
    requires Wf(Rebuilt(t, Ingress)) && Wf(Rebuilt(t, Egress))
    ensures Truthful(t) <==> AllRecognised(t)
  {
    hide Wf, Binds, RulesOf, Rebuilt, Recognised;
    if AllRecognised(t) {
      forall d, i ensures Binds(t, d, i, RulesOf(Rebuilt(t, d), i)) {
        assert d == Ingress || d == Egress;
        RecognisedBinds(t, d, i);
      }
    }
    if Truthful(t) {
      forall name | name in t && DumpDirection(t[name]).Some? ensures Recognised(t[name]) {
        BelievedRecognised(t, name);
      }
    }
  }

  lemma RecognisedBinds(t: Table, d: Direction, i: Iface)
    requires Wf(Rebuilt(t, d)) && AllRecognised(t)
    ensures Binds(t, d, i, RulesOf(Rebuilt(t, d), i))
  {
    hide RulesOf, DumpAll, Renders, RenderAll;
    var v := Rebuilt(t, d);
    forall name ensures Bound(t, d, i, name) <==> Owns(v, name, i) {
      assert name in t && DumpDirection(t[name]).Some? ==> Recognised(t[name]);
    }
    if name :| Owns(v, name, i) {
      RulesOfOwner(v, name, i);
      assert Recognised(t[name]);
      RoundTripIff(t[name].rules);
      assert DumpAll(t[name].rules) != [] by { EmptyDump(t[name].rules); }
    } else {
      NoRules(v, i);
    }
  }

  lemma EmptyDump(acl: seq<AclRule>)
    requires RenderAll(DumpAll(acl)) == acl != []
    ensures DumpAll(acl) != []
  {
  }

  lemma BelievedRecognised(t: Table, name: string)
    requires Wf(Rebuilt(t, Ingress)) && Wf(Rebuilt(t, Egress)) && Truthful(t) && name in t && DumpDirection(t[name]).Some?
    ensures Recognised(t[name])
  {
    hide RulesOf, DumpAll, Renders, Wf;
    var acl, d := t[name], DumpDirection(t[name]).value;
    var v := Rebuilt(t, d);
    var i :| i in InterfacesOf(acl, d);
    assert Owns(v, name, i);
    RulesOfOwner(v, name, i);
    assert Binds(t, d, i, DumpAll(acl.rules));
    assert Bound(t, d, i, name);
    assert acl.rules == RenderAll(DumpAll(acl.rules)) && DumpAll(acl.rules) != [];
    RoundTripIff(acl.rules);
    if acl.interfaces.ingress != {} && acl.interfaces.egress != {} {
      var j :| j in acl.interfaces.egress;
      HiddenBinding(t, name, j);
    }
  }

  /** The egress interfaces of an ACL that also has ingress ones are invisible to the cache. */
  lemma HiddenBinding(t: Table, name: string, j: Iface)
    requires Wf(Rebuilt(t, Egress)) && name in t && t[name].interfaces.ingress != {} && j in t[name].interfaces.egress
    ensures !Binds(t, Egress, j, RulesOf(Rebuilt(t, Egress), j))
  {
    hide RulesOf, DumpAll, RenderAll;
    var v := Rebuilt(t, Egress);
    assert Bound(t, Egress, j, name);
    if other :| Owns(v, other, j) {
      assert Bound(t, Egress, j, other) && other != name;
    } else {
      NoRules(v, j);
    }
  }

  /** A table that a resynchronisation takes over: all ACLs in use are recognised, carry the name of
      their direction, and differ in rules and interfaces within a direction. */
  ghost predicate Adoptable(t: Table) {
    && (forall name :: name in InUse(t) ==> HasName(name, DumpDirection(t[name]).value))
    && AllRecognised(t)
    && (forall a, b :: a in InUse(t) && b in InUse(t) && a != b && DumpDirection(t[a]) == DumpDirection(t[b]) ==>
          t[a].rules != t[b].rules && InterfacesOf(t[a], DumpDirection(t[a]).value) !! InterfacesOf(t[b], DumpDirection(t[b]).value))
  }

  function Adopted(t: Table): State {
    State(Rebuilt(t, Ingress), Rebuilt(t, Egress), t)
  }

  lemma AdoptedLists(t: Table, d: Direction)
    requires Adoptable(t)
    ensures GoodLists(Rebuilt(t, d), d)
  {
    hide HasName, DumpAll, RenderAll, Renders;
    var v := Rebuilt(t, d);
    forall name | name in v ensures RenderAll(DumpAll(t[name].rules)) == t[name].rules && CanonicalRules(Contents(v[name].rules)) {
      assert Recognised(t[name]);
      RoundTripIff(t[name].rules);
      DumpCanonical(t[name].rules);
    }
  }

  /** The rebuilt cache is in step with such a table. */
  lemma AdoptedInv(t: Table)
    requires Adoptable(t)
    ensures Inv(Adopted(t))
  {
    hide HasName, DumpAll, RenderAll, Renders, GoodLists;
    AdoptedLists(t, Ingress);
    AdoptedLists(t, Egress);
    var s := Adopted(t);
    var u := TableOf(s.ingress, Ingress) + TableOf(s.egress, Egress);
    var used := InUse(t);
    hide TableOf, InUse;
    forall name ensures name in used <==> name in u
                ensures name in used ==> used[name] == u[name] {
      AdoptedAcl(t, Ingress, name);
      AdoptedAcl(t, Egress, name);
    }
    assert used == u;
  }

  /** The rebuilt lists of a direction are rendered into the ACLs in use that they come from. */
  lemma AdoptedAcl(t: Table, d: Direction, name: string)
    requires AllRecognised(t)
    ensures name in TableOf(Rebuilt(t, d), d) <==> name in InUse(t) && DumpDirection(t[name]) == Some(d)
    ensures name in TableOf(Rebuilt(t, d), d) ==> TableOf(Rebuilt(t, d), d)[name] == InUse(t)[name]
    ensures name in InUse(t) ==> DumpDirection(t[name]) == Some(Ingress) || DumpDirection(t[name]) == Some(Egress)
  {
    hide DumpAll, RenderAll, Renders;
    if name in InUse(t) {
      assert Recognised(t[name]);
      RoundTripIff(t[name].rules);
      EmptyDump(t[name].rules);
    }
  }

  // ----- Transactions -----

  /** The rules of an interface: ingress for what enters the vswitch by it, egress for what leaves. */
  datatype IfaceRules = IfaceRules(ingress: Slice, egress: Slice)

  /** One committed transaction: the configuration of some interfaces. */
  datatype Txn = Txn(resync: bool, config: map<Iface, IfaceRules>)

  ghost predicate ValidTxn(txn: Txn) {
    forall i :: i in txn.config ==> CanonicalRules(Contents(txn.config[i].ingress)) && CanonicalRules(Contents(txn.config[i].egress))
  }

  function ConfigOf(txn: Txn, i: Iface, d: Direction): Slice
    requires i in txn.config
  {
    if d == Ingress then txn.config[i].ingress else txn.config[i].egress
  }

  function InterfacesIn(v: Lists): set<Iface> {
    set id, i | id in v && i in v[id].ifaces :: i
  }

  /** The content of the cache when the updates start. */
  function BaseOf(s: State, txn: Txn, d: Direction): Lists {
    if txn.resync then Rebuilt(s.table, d) else ListsOf(s, d)
  }

  /** The updates: a resync also empties the known interfaces that are not configured. */
  function Updates(s: State, txn: Txn, d: Direction): map<Iface, Slice> {
    var emptied := if txn.resync then InterfacesIn(Rebuilt(s.table, Ingress)) + InterfacesIn(Rebuilt(s.table, Egress)) else {};
    map i | i in txn.config.Keys + emptied :: if i in txn.config then ConfigOf(txn, i, d) else Some([])
  }

  /** The two heads built by the updates, and the order of their lists. */
  datatype Heads = Heads(ingress: Lists, egress: Lists, ingressOrder: seq<string>, egressOrder: seq<string>)

  function HeadOf(h: Heads, d: Direction): Lists { if d == Ingress then h.ingress else h.egress }

  function OrderOf(h: Heads, d: Direction): seq<string> { if d == Ingress then h.ingressOrder else h.egressOrder }

  /** Whatever the order of the updates and the generated IDs, the heads are of this kind. */
  ghost predicate ValidHead(s: State, txn: Txn, h: Heads, d: Direction) {
    && Head(HeadOf(h, d), BaseOf(s, txn, d), Updates(s, txn, d)) && Named(HeadOf(h, d), d)
    && Enumerates(OrderOf(h, d), HeadOf(h, d)) && PrivateKept(BaseOf(s, txn, d))
  }

  ghost predicate NothingToRender(s: State, txn: Txn, h: Heads) {
    forall d, id :: !Changed(HeadOf(h, d), BaseOf(s, txn, d), id)
  }

  ghost function CommittedOf(s: State, txn: Txn, h: Heads, d: Direction): Lists
    requires ValidHead(s, txn, h, d)
  {
    RememberedKeys(HeadOf(h, d), BaseOf(s, txn, d));
    CommitAll(BaseOf(s, txn, d), Remembered(HeadOf(h, d), BaseOf(s, txn, d)), OrderOf(h, d))
  }

  ghost function PutsOf(s: State, txn: Txn, h: Heads, d: Direction): Table
    requires ValidHead(s, txn, h, d)
  {
    RememberedPrivate(HeadOf(h, d), BaseOf(s, txn, d));
    PutAcls(HeadOf(h, d), BaseOf(s, txn, d), d)
  }

  ghost function DeletesOf(s: State, txn: Txn, h: Heads): set<string> {
    DeletedAcls(h.ingress, BaseOf(s, txn, Ingress)) + DeletedAcls(h.egress, BaseOf(s, txn, Egress))
  }

  /** What a successful Commit does to the cache and to VPP. */
  ghost predicate Commits(s: State, txn: Txn, h: Heads, s': State) {
    && ValidHead(s, txn, h, Ingress) && ValidHead(s, txn, h, Egress)
    && s' == if NothingToRender(s, txn, h)
             then State(BaseOf(s, txn, Ingress), BaseOf(s, txn, Egress), s.table)
             else State(CommittedOf(s, txn, h, Ingress), CommittedOf(s, txn, h, Egress),
                        (s.table - DeletesOf(s, txn, h)) + PutsOf(s, txn, h, Ingress) + PutsOf(s, txn, h, Egress))
  }

  /** The rules an interface has to have after a transaction. */
  function Wanted(txn: Txn, d: Direction, i: Iface, before: seq<Rule>): seq<Rule> {
    if i in txn.config then Contents(ConfigOf(txn, i, d))
    else if txn.resync then []
    else before
  }

  lemma BaseGood(s: State, txn: Txn, d: Direction)
    requires Inv(s) && ValidTxn(txn)
    ensures GoodLists(BaseOf(s, txn, d), d) && TableOf(BaseOf(s, txn, d), d) == TableOf(ListsOf(s, d), d)
    ensures forall i :: RulesOf(BaseOf(s, txn, d), i) == RulesOf(ListsOf(s, d), i)
  {
    hide Inv, GoodLists, RulesOf, TableOf, Rebuilt;
    if txn.resync {
      RebuiltGood(s, d);
      forall i ensures RulesOf(Rebuilt(s.table, d), i) == RulesOf(ListsOf(s, d), i) {
        RebuiltRules(s, d, i);
      }
    } else {
      InvLists(s, d);
    }
  }

  /** The updates ask for the wanted rules. */
  lemma UpdatesWanted(s: State, txn: Txn, d: Direction, i: Iface)
    requires Inv(s) && ValidTxn(txn)
    ensures (if i in Updates(s, txn, d) then Contents(Updates(s, txn, d)[i]) else RulesOf(BaseOf(s, txn, d), i))
            == Wanted(txn, d, i, RulesOf(ListsOf(s, d), i))
  {
    hide Inv, RulesOf, TableOf, Rebuilt;
    BaseGood(s, txn, d);
    if txn.resync && i !in Updates(s, txn, d) {
      var v := Rebuilt(s.table, d);
      assert i !in InterfacesIn(v);
      forall id ensures !Owns(v, id, i) {
        assert Owns(v, id, i) ==> i in InterfacesIn(v);
      }
      NoRules(v, i);
    }
  }

  lemma UpdatesCanonical(s: State, txn: Txn, d: Direction, i: Iface)
    requires ValidTxn(txn) && i in Updates(s, txn, d)
    ensures CanonicalRules(Contents(Updates(s, txn, d)[i]))
  {
    hide Rebuilt;
  }

  /** Committed lists have the rules of the base or of an update. */
  lemma CommittedRules(s: State, txn: Txn, h: Heads, d: Direction, id: string)
    requires ValidTxn(txn) && ValidHead(s, txn, h, d) && GoodLists(BaseOf(s, txn, d), d)
    requires id in CommittedOf(s, txn, h, d)
    ensures HasName(id, d) && CanonicalRules(Contents(CommittedOf(s, txn, h, d)[id].rules))
  {
    hide HasName, CanonicalRules, Rebuilt, Updates, CommitAll, Remembered, BaseOf;
    var base, head := BaseOf(s, txn, d), HeadOf(h, d);
    var r, b := Remembered(head, base), CommittedOf(s, txn, h, d);
    RememberedHead(head, base, Updates(s, txn, d));
    RememberedKeys(head, base);
    CommitAllCommits(base, r, OrderOf(h, d));
    assert KnownAfter(base, r, (set x | x in OrderOf(h, d)), id);
    if id !in base {
      var i :| i in r[id].ifaces;
      assert Owns(r, id, i);
      assert i in Updates(s, txn, d);
      var x :| Owns(r, x, i) && r[x].rules == Updates(s, txn, d)[i];
      assert x == id;
      UpdatesCanonical(s, txn, d, i);
    }
  }

  lemma CommittedGood(s: State, txn: Txn, h: Heads, d: Direction)
    requires ValidTxn(txn) && ValidHead(s, txn, h, d) && GoodLists(BaseOf(s, txn, d), d)
    ensures GoodLists(CommittedOf(s, txn, h, d), d)
    ensures TableOf(CommittedOf(s, txn, h, d), d) ==
            (TableOf(BaseOf(s, txn, d), d) - DeletedAcls(HeadOf(h, d), BaseOf(s, txn, d))) + PutsOf(s, txn, h, d)
    ensures forall i :: RulesOf(CommittedOf(s, txn, h, d), i) ==
              if i in Updates(s, txn, d) then Contents(Updates(s, txn, d)[i]) else RulesOf(BaseOf(s, txn, d), i)
  {
    hide HasName, CanonicalRules, Head, CommitAll, Remembered, BaseOf, Updates, PrivateKept, RulesOf, TableOf,
         PutAcls, DeletedAcls, Enumerates;
    var b := CommittedOf(s, txn, h, d);
    TableAfterCommit(HeadOf(h, d), BaseOf(s, txn, d), Updates(s, txn, d), OrderOf(h, d), d);
    forall id | id in b ensures HasName(id, d) && CanonicalRules(Contents(b[id].rules)) {
      CommittedRules(s, txn, h, d, id);
    }
    forall i ensures RulesOf(b, i) ==
        if i in Updates(s, txn, d) then Contents(Updates(s, txn, d)[i]) else RulesOf(BaseOf(s, txn, d), i) {
      CommitSets(BaseOf(s, txn, d), Updates(s, txn, d), b, i);
    }
  }

  ghost predicate KeysNamed(ids: set<string>, d: Direction) {
    forall id :: id in ids ==> HasName(id, d)
  }

  /** Puts and deletes of one direction do not touch the ACLs of the other. */
  lemma MergeTables(a: Table, b: Table, da: set<string>, db: set<string>, pa: Table, pb: Table)
    requires KeysNamed(a.Keys + da + pa.Keys, Ingress) && KeysNamed(b.Keys + db + pb.Keys, Egress)
    ensures ((a + b) - (da + db)) + pa + pb == ((a - da) + pa) + ((b - db) + pb)
  {
    hide HasName;
    var x, y := ((a + b) - (da + db)) + pa + pb, ((a - da) + pa) + ((b - db) + pb);
    forall id ensures (id in x <==> id in y) && (id in x ==> x[id] == y[id]) {
      NamesDiffer(id);
      assert id in a.Keys + da + pa.Keys ==> HasName(id, Ingress);
      assert id in b.Keys + db + pb.Keys ==> HasName(id, Egress);
    }
  }

  lemma SentNamed(s: State, txn: Txn, h: Heads, d: Direction)
    requires ValidHead(s, txn, h, d) && Named(BaseOf(s, txn, d), d)
    ensures KeysNamed(TableOf(BaseOf(s, txn, d), d).Keys + DeletedAcls(HeadOf(h, d), BaseOf(s, txn, d)) +
                      PutsOf(s, txn, h, d).Keys, d)
  {
    hide HasName, Head, BaseOf, Updates, RenderAll, PrivateKept, Remembered;
  }

  lemma PutsInUse(s: State, txn: Txn, h: Heads, d: Direction)
    requires ValidHead(s, txn, h, d)
    ensures InUse(PutsOf(s, txn, h, d)) == PutsOf(s, txn, h, d)
  {
    hide Head, BaseOf, Updates, RenderAll, PrivateKept, Remembered, HasName, Enumerates;
  }

  lemma InUseAfter(t: Table, deletes: set<string>, p: Table, q: Table)
    ensures InUse(p) == p && InUse(q) == q ==> InUse((t - deletes) + p + q) == (InUse(t) - deletes) + p + q
  {
    if InUse(p) == p && InUse(q) == q {
      var x, y := InUse((t - deletes) + p + q), (InUse(t) - deletes) + p + q;
      forall name ensures (name in x <==> name in y) && (name in x ==> x[name] == y[name]) {
        assert name in p ==> name in InUse(p);
        assert name in q ==> name in InUse(q);
      }
      assert x == y;
    }
  }

  lemma TableStep(s: State, txn: Txn, h: Heads)
    requires Inv(s) && ValidTxn(txn) && ValidHead(s, txn, h, Ingress) && ValidHead(s, txn, h, Egress)
    ensures InUse((s.table - DeletesOf(s, txn, h)) + PutsOf(s, txn, h, Ingress) + PutsOf(s, txn, h, Egress)) ==
            TableOf(CommittedOf(s, txn, h, Ingress), Ingress) + TableOf(CommittedOf(s, txn, h, Egress), Egress)
  {
    hide HasName, ValidHead, BaseOf, TableOf, CommittedOf, PutsOf, DeletedAcls, KeysNamed, RulesOf, Named,
         PrivateKept, CanonicalLists, Wf;
    BaseGood(s, txn, Ingress);
    BaseGood(s, txn, Egress);
    CommittedGood(s, txn, h, Ingress);
    CommittedGood(s, txn, h, Egress);
    SentNamed(s, txn, h, Ingress);
    SentNamed(s, txn, h, Egress);
    InUseAfter(s.table, DeletesOf(s, txn, h), PutsOf(s, txn, h, Ingress), PutsOf(s, txn, h, Egress));
    PutsInUse(s, txn, h, Ingress);
    PutsInUse(s, txn, h, Egress);
    MergeTables(TableOf(s.ingress, Ingress), TableOf(s.egress, Egress),
                DeletedAcls(h.ingress, BaseOf(s, txn, Ingress)), DeletedAcls(h.egress, BaseOf(s, txn, Egress)),
                PutsOf(s, txn, h, Ingress), PutsOf(s, txn, h, Egress));
  }

  /** Every transaction keeps the cache and VPP in step and gives every interface exactly the
      wanted rules, also when nothing is sent because all changes were filtered out. */
  lemma CommitKeeps(s: State, txn: Txn, h: Heads, s': State, d: Direction, i: Iface)
    requires Inv(s) && ValidTxn(txn) && Commits(s, txn, h, s')
    ensures Inv(s')
    ensures RulesOf(ListsOf(s', d), i) == Wanted(txn, d, i, RulesOf(ListsOf(s, d), i))
  {
    hide HasName, BaseOf, TableOf, CommittedOf, PutsOf, DeletesOf, RulesOf, Wanted, GoodLists, Updates, Head,
         PrivateKept, Enumerates;
    BaseGood(s, txn, Ingress);
    BaseGood(s, txn, Egress);
    UpdatesWanted(s, txn, d, i);
    if NothingToRender(s, txn, h) {
      if i in Updates(s, txn, d) {
        SkipSets(HeadOf(h, d), BaseOf(s, txn, d), Updates(s, txn, d), i);
      }
    } else {
      CommittedGood(s, txn, h, Ingress);
      CommittedGood(s, txn, h, Egress);
      TableStep(s, txn, h);
    }
  }

  /** A resynchronisation depends on VPP alone, whatever the cache held: nothing, if the agent was
      restarted. */
  lemma ResyncForgets(s: State, u: State, txn: Txn, h: Heads, s': State)
    requires txn.resync && s.table == u.table
    ensures Commits(s, txn, h, s') <==> Commits(u, txn, h, s')
  {
    hide Rebuilt, Head, Enumerates, Named, PrivateKept, Changed, CommitAll, Remembered, PutAcls, DeletedAcls;
    assert forall d :: BaseOf(s, txn, d) == BaseOf(u, txn, d) && Updates(s, txn, d) == Updates(u, txn, d);
    assert forall d :: ValidHead(s, txn, h, d) <==> ValidHead(u, txn, h, d);
  }

  /** A resynchronisation brings the cache and any table that it takes over in step. */
  lemma ResyncAdopts(s: State, txn: Txn, h: Heads, s': State, d: Direction, i: Iface)
    requires txn.resync && ValidTxn(txn) && Adoptable(s.table) && Commits(s, txn, h, s')
    ensures Inv(s') && RulesOf(ListsOf(s', d), i) == Wanted(txn, d, i, [])
  {
    hide Commits, Inv, Adoptable, RulesOf, Rebuilt, ValidTxn;
    AdoptedInv(s.table);
    ResyncForgets(s, Adopted(s.table), txn, h, s');
    CommitKeeps(Adopted(s.table), txn, h, s', d, i);
  }

  // ----- Runs -----

  /** From an empty VPP, or from any table that the first transaction takes over. */
  ghost predicate Starts(s: State, txns: seq<Txn>) {
    || s == State(map[], map[], map[])
    || (txns != [] && txns[0].resync && Adoptable(s.table))
  }

  ghost predicate IsRun(states: seq<State>, txns: seq<Txn>, heads: seq<Heads>) {
    && |states| == |txns| + 1 && |heads| == |txns|
    && Starts(states[0], txns)
    && (forall k :: 0 <= k < |txns| ==> ValidTxn(txns[k]) && Commits(states[k], txns[k], heads[k], states[k + 1]))
  }

  /** The rules rendered last for an interface. */
  function LastRendered(txns: seq<Txn>, d: Direction, i: Iface): seq<Rule> {
    if txns == [] then []
    else Wanted(txns[|txns| - 1], d, i, LastRendered(txns[..|txns| - 1], d, i))
  }

  lemma {:induction false} RunKeeps(states: seq<State>, txns: seq<Txn>, heads: seq<Heads>, d: Direction, i: Iface)
    requires IsRun(states, txns, heads)
    ensures Inv(states[|txns|]) && RulesOf(ListsOf(states[|txns|], d), i) == LastRendered(txns, d, i)
  {
    hide Commits, Inv, RulesOf, Wanted, ValidTxn, Adoptable;
    if txns == [] {
      EmptyInv(i);
    } else {
      var n := |txns| - 1;
      if n == 0 && states[0] != State(map[], map[], map[]) {
        ResyncAdopts(states[0], txns[0], heads[0], states[1], d, i);
        assert txns[..0] == [];
      } else {
        RunKeeps(states[..n + 1], txns[..n], heads[..n], d, i);
        CommitKeeps(states[n], txns[n], heads[n], states[n + 1], d, i);
      }
    }
  }

  lemma EmptyInv(i: Iface)
    ensures Inv(State(map[], map[], map[])) && RulesOf(map[], i) == []
  {
  }

  /** After every run, VPP binds each interface to exactly one ACL per direction with the rules
      rendered last, and to none if those were empty or it was left out of a later resync. */
  lemma RunBinds(states: seq<State>, txns: seq<Txn>, heads: seq<Heads>, d: Direction, i: Iface)
    requires IsRun(states, txns, heads)
    ensures Binds(states[|txns|].table, d, i, LastRendered(txns, d, i))
  {
    RunKeeps(states, txns, heads, d, i);
    BothBind(states[|txns|], d, i);
  }

  /** The names of the ACLs in use tell their direction. */
  lemma RunNames(states: seq<State>, txns: seq<Txn>, heads: seq<Heads>, name: string)
    requires IsRun(states, txns, heads) && name in states[|txns|].table
    ensures var interfaces := states[|txns|].table[name].interfaces;
            && (interfaces.ingress != {} ==> "ingress-" <= name && interfaces.egress == {})
            && (interfaces.egress != {} ==> "egress-" <= name && interfaces.ingress == {})
  {
    hide IsRun, RulesOf, RenderAll, Wf, PrivateKept, CanonicalLists;
    RunIsRun(states, txns, heads);
    RunKeeps(states, txns, heads, Ingress, "");
    var s := states[|txns|];
    assert name in InUse(s.table) <==> DumpDirection(s.table[name]).Some?;
  }

  // ----- What VPP decides -----

  /** At most one ACL is bound to the interface.  It decides the packet so, and lets the replies of
      what it allows through; without an ACL nothing is decided. */
  ghost predicate Decides(t: Table, d: Direction, i: Iface, p: Packet, verdict: Verdict) {
    && (forall a, b :: Bound(t, d, i, a) && Bound(t, d, i, b) ==> a == b)
    && (forall name :: Bound(t, d, i, name) ==>
          && AclEvaluate(t[name].rules, p) == verdict
          && (verdict == Allowed ==> Reflects(t[name].rules, p)))
    && ((forall name :: !Bound(t, d, i, name)) ==> verdict == Unmatched)
  }

  lemma BindsDecides(t: Table, d: Direction, i: Iface, rules: seq<Rule>, p: Packet)
    requires Binds(t, d, i, rules)
    ensures Decides(t, d, i, p, Evaluate(rules, p))
  {
    hide Bound, RenderAll, AclEvaluate, Reflects;
    RenderedMeaning(rules, p);
  }

  /** After a transaction the packets of the interfaces it configures are decided by its rules: those
      that enter by the ingress rules and those that leave by the egress rules. */
  ghost predicate ConfigDecides(t: Table, config: map<Iface, IfaceRules>) {
    forall i, p: Packet :: i in config ==>
      && Decides(t, Ingress, i, p, Evaluate(Contents(config[i].ingress), p))
      && Decides(t, Egress, i, p, Evaluate(Contents(config[i].egress), p))
  }

  lemma CommitDecides(s: State, txn: Txn, h: Heads, s': State)
    requires Inv(s) && ValidTxn(txn) && Commits(s, txn, h, s')
    ensures ConfigDecides(s'.table, txn.config)
  {
    hide Inv, ValidTxn, Commits, Binds, Decides, RulesOf, Evaluate, Contents;
    forall i, p: Packet | i in txn.config
      ensures Decides(s'.table, Ingress, i, p, Evaluate(Contents(txn.config[i].ingress), p))
      ensures Decides(s'.table, Egress, i, p, Evaluate(Contents(txn.config[i].egress), p))
    {
      CommitKeeps(s, txn, h, s', Ingress, i);
      CommitKeeps(s, txn, h, s', Egress, i);
      BothBind(s', Ingress, i);
      BothBind(s', Egress, i);
      BindsDecides(s'.table, Ingress, i, Contents(txn.config[i].ingress), p);
      BindsDecides(s'.table, Egress, i, Contents(txn.config[i].egress), p);
    }
  }

  /** After every run, VPP decides every packet of an interface as the first match of the rules
      rendered last for the interface does. */
  lemma RunDecides(states: seq<State>, txns: seq<Txn>, heads: seq<Heads>, d: Direction, i: Iface, p: Packet)
    requires IsRun(states, txns, heads)
    ensures Decides(states[|txns|].table, d, i, p, Evaluate(LastRendered(txns, d, i), p))
  {
    hide IsRun, Binds, Decides, LastRendered, Evaluate;
    RunIsRun(states, txns, heads);
    RunBinds(states, txns, heads, d, i);
    BindsDecides(states[|txns|].table, d, i, LastRendered(txns, d, i), p);
  }

  lemma RunIsRun(states: seq<State>, txns: seq<Txn>, heads: seq<Heads>)
    requires IsRun(states, txns, heads)
    ensures |states| == |txns| + 1
  {
  }

  /** The last transaction decides the packets of the interfaces it configures, those that enter by
      its ingress rules and those that leave by its egress rules.  If it is a resync it leaves the
      packets of all other interfaces undecided, and otherwise as they were decided before. */
  lemma LastTxnDecides(states: seq<State>, txns: seq<Txn>, heads: seq<Heads>, i: Iface, p: Packet)
    requires IsRun(states, txns, heads) && txns != []
    ensures var n := |txns| - 1;
            var t := states[n + 1].table;
            if i in txns[n].config then
              && Decides(t, Ingress, i, p, Evaluate(Contents(txns[n].config[i].ingress), p))
              && Decides(t, Egress, i, p, Evaluate(Contents(txns[n].config[i].egress), p))
            else if txns[n].resync then
              Decides(t, Ingress, i, p, Unmatched) && Decides(t, Egress, i, p, Unmatched)
            else
              forall d: Direction, v: Verdict :: Decides(states[n].table, d, i, p, v) ==> Decides(t, d, i, p, v)
  {
    hide Decides, Evaluate;
    RunDecides(states, txns, heads, Ingress, i, p);
    RunDecides(states, txns, heads, Egress, i, p);
    assert Evaluate([], p) == Unmatched by { NothingDecided(p); }
    if i !in txns[|txns| - 1].config && !txns[|txns| - 1].resync {
      StaysDecided(states, txns, heads, i, p);
    }
  }

  lemma StaysDecided(states: seq<State>, txns: seq<Txn>, heads: seq<Heads>, i: Iface, p: Packet)
    requires IsRun(states, txns, heads) && txns != []
    requires i !in txns[|txns| - 1].config && !txns[|txns| - 1].resync
    ensures forall d: Direction, v: Verdict ::
              Decides(states[|txns| - 1].table, d, i, p, v) ==> Decides(states[|txns|].table, d, i, p, v)
  {
    hide Evaluate, Commits, ValidTxn, Adoptable, Bound, AclEvaluate, Reflects;
    var n := |txns| - 1;
    assert txns[..n + 1] == txns;
    forall d: Direction, v: Verdict | Decides(states[n].table, d, i, p, v) ensures Decides(states[n + 1].table, d, i, p, v) {
      RunDecides(states[..n + 1], txns[..n], heads[..n], d, i, p);
      RunDecides(states, txns, heads, d, i, p);
    }
  }
}
