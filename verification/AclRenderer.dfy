/** The ACL renderer over whole runs: what the cache and VPP hold after any sequence of
    transactions, resynchronisations included (plugins/policy/renderer/acl/acl_renderer.go). */
module AclRenderer {
  import opened Base
  import opened Rules
  import opened VppAcl
  import opened AclLists

  datatype Direction = Ingress | Egress

  datatype Interfaces = Interfaces(ingress: set<Iface>, egress: set<Iface>)

  datatype Acl = Acl(rules: seq<AclRule>, interfaces: Interfaces)

  /** The ACLs of VPP by their names. */
  type Table = map<string, Acl>

  function RenderInterfaces(ifaces: set<Iface>, d: Direction): Interfaces {
    if d == Ingress then Interfaces(ifaces, {}) else Interfaces({}, ifaces)
  }

  function InterfacesOf(acl: Acl, d: Direction): set<Iface> {
    if d == Ingress then acl.interfaces.ingress else acl.interfaces.egress
  }

  function Contents(rules: Slice): seq<Rule> {
    if rules.Some? then rules.value else []
  }

  // ----- One direction: what a transaction puts and deletes -----

  /** Lists without rules are filtered out of the changes. */
  predicate Renderable(e: Entry) {
    Contents(e.rules) != []
  }

  ghost predicate Changed(head: Lists, base: Lists, id: string) {
    && id in head && Renderable(head[id])
    && head[id].ifaces != if id in base then base[id].ifaces else {}
  }

  /** An ACL that no interface had before is rendered anew and remembered in Private. */
  ghost predicate IsNewAcl(head: Lists, base: Lists, id: string) {
    Changed(head, base, id) && (id !in base || base[id].ifaces == {})
  }

  function Body(id: string, rules: Slice): AclBody {
    AclBody(id, RenderAll(Contents(rules)))
  }

  /** The head once the changes were rendered. */
  ghost function Remembered(head: Lists, base: Lists): Lists {
    map id | id in head ::
      if IsNewAcl(head, base, id) then head[id].(priv := Some(Body(id, head[id].rules))) else head[id]
  }

  ghost predicate Puts(head: Lists, base: Lists, id: string) {
    Changed(head, base, id) && head[id].ifaces != {}
  }

  ghost predicate Deletes(head: Lists, base: Lists, id: string) {
    Changed(head, base, id) && head[id].ifaces == {}
  }

  /** The ACLs of the lists that have rules and interfaces. */
  ghost function TableOf(v: Lists, d: Direction): Table {
    map id | id in v && Renderable(v[id]) && v[id].ifaces != {} ::
      Acl(RenderAll(Contents(v[id].rules)), RenderInterfaces(v[id].ifaces, d))
  }

  /** Private of every list with rules is its rendered ACL. */
  ghost predicate PrivateKept(v: Lists) {
    forall id :: id in v && Renderable(v[id]) ==> v[id].priv == Some(Body(id, v[id].rules))
  }

  /** What is sent for one direction; the bodies of changed ACLs come from Private. */
  ghost function PutAcls(head: Lists, base: Lists, d: Direction): Table
    requires forall id :: Puts(head, base, id) ==> Remembered(head, base)[id].priv.Some?
  {
    map id | id in head && Puts(head, base, id) ::
      Acl(Remembered(head, base)[id].priv.value.rules, RenderInterfaces(head[id].ifaces, d))
  }

  ghost function DeletedAcls(head: Lists, base: Lists): set<string> {
    set id | id in head && Deletes(head, base, id)
  }

  lemma RememberedPrivate(head: Lists, base: Lists)
    requires HeadLists(head, base) && PrivateKept(base)
    ensures HeadLists(Remembered(head, base), base)
    ensures forall id :: Changed(head, base, id) ==> Remembered(head, base)[id].priv == Some(Body(id, head[id].rules))
  {
    assert Wf(Remembered(head, base));
  }

  /** After commit a list has the interfaces of the head if the head knows the list. */
  lemma CommittedInterfaces(head: Lists, base: Lists, updated: map<Iface, Slice>, b: Lists, id: string)
    requires Head(head, base, updated) && Committed(base, head, head.Keys, b) && id in b
    ensures b[id].ifaces == if id in head then head[id].ifaces else base[id].ifaces
  {
    assert id in head || id in base;
    hide Wf, HasRules, CommittedLists;
    forall i ensures i in b[id].ifaces <==> i in (if id in head then head[id].ifaces else base[id].ifaces) {
      assert i in b[id].ifaces <==> Owns(b, id, i);
      assert Owns(b, id, i) <==> OwnsAfter(base, head, head.Keys, id, i);
      assert forall x :: x in head.Keys && Owns(head, x, i) ==> OwnedBy(head, head.Keys, i);
      if i in updated {
        var x :| Owns(head, x, i) && head[x].rules == updated[i];
      }
    }
  }

  lemma RememberedHead(head: Lists, base: Lists, updated: map<Iface, Slice>)
    requires Head(head, base, updated) && PrivateKept(base)
    ensures Head(Remembered(head, base), base, updated)
  {
    hide HeadLists, PrivateKept;
    var r := Remembered(head, base);
    RememberedPrivate(head, base);
    assert forall id, i :: Owns(r, id, i) <==> Owns(head, id, i);
    assert r.Keys == head.Keys && forall id :: id in r ==> r[id].rules == head[id].rules;
  }

  /** The ACL of one list in VPP after the transaction. */
  lemma AclAfterCommit(head: Lists, base: Lists, b: Lists, d: Direction, id: string)
    requires HeadLists(head, base) && PrivateKept(base)
    requires CommittedLists(base, Remembered(head, base), head.Keys, b)
    requires id in b ==> b[id].ifaces == if id in head then head[id].ifaces else base[id].ifaces
    requires forall x :: Changed(head, base, x) ==> Remembered(head, base)[x].priv == Some(Body(x, head[x].rules))
    ensures id in b && Renderable(b[id]) ==> b[id].priv == Some(Body(id, b[id].rules))
    ensures var t := (TableOf(base, d) - DeletedAcls(head, base)) + PutAcls(head, base, d);
            (id in TableOf(b, d) <==> id in t) && (id in t ==> TableOf(b, d)[id] == t[id])
  {
    hide Wf, RenderAll, RenderInterfaces, HasRules;
    var r := Remembered(head, base);
    assert id in b <==> KnownAfter(base, r, head.Keys, id);
    assert r.Keys == head.Keys;
    if id in head {
      assert r[id].rules == head[id].rules && r[id].ifaces == head[id].ifaces;
    }
    if id in b && id !in base {
      assert Renderable(head[id]) ==> Changed(head, base, id);
    }
  }

  /** What is sent to VPP turns the ACLs of the old cache content into those of the new one. */
  lemma TableAfterCommit(head: Lists, base: Lists, updated: map<Iface, Slice>, order: seq<string>, d: Direction)
    requires Head(head, base, updated) && PrivateKept(base) && Enumerates(order, head)
    ensures Head(Remembered(head, base), base, updated) && Remembered(head, base).Keys == head.Keys
    ensures forall id :: Puts(head, base, id) ==> Remembered(head, base)[id].priv.Some?
    ensures var b := CommitAll(base, Remembered(head, base), order);
            && Refines(base, updated, b) && PrivateKept(b)
            && TableOf(b, d) == (TableOf(base, d) - DeletedAcls(head, base)) + PutAcls(head, base, d)
  {
    hide Remembered, PrivateKept, CommitAll, Refines, TableOf, PutAcls, DeletedAcls, HeadLists, HeadUpdated,
         HeadKeeps, CommittedLists, OwnsAfter, Changed;
    var r := Remembered(head, base);
    RememberedHead(head, base, updated);
    RememberedPrivate(head, base);
    RememberedKeys(head, base);
    var b := CommitAll(base, r, order);
    CommitRefines(r, base, updated, order);
    CommitAllCommits(base, r, order);
    assert (set id | id in order) == head.Keys;
    var t := (TableOf(base, d) - DeletedAcls(head, base)) + PutAcls(head, base, d);
    forall id ensures id in b && Renderable(b[id]) ==> b[id].priv == Some(Body(id, b[id].rules))
              ensures (id in TableOf(b, d) <==> id in t) && (id in t ==> TableOf(b, d)[id] == t[id]) {
      if id in b {
        CommittedInterfaces(r, base, updated, b, id);
      }
      AclAfterCommit(head, base, b, d, id);
    }
    PrivateFrom(b);
  }

  ghost predicate Enumerates(order: seq<string>, v: Lists) {
    && (forall k :: 0 <= k < |order| ==> order[k] in v) && (forall id :: id in v ==> id in order)
    && (forall j, k :: 0 <= j < k < |order| ==> order[j] != order[k])
  }

  lemma RememberedKeys(head: Lists, base: Lists)
    ensures Remembered(head, base).Keys == head.Keys
    ensures forall id :: id in head ==> Remembered(head, base)[id].ifaces == head[id].ifaces
  {
  }

  lemma PrivateFrom(v: Lists)
    requires forall id :: id in v && Renderable(v[id]) ==> v[id].priv == Some(Body(id, v[id].rules))
    ensures PrivateKept(v)
  {
  }
}
