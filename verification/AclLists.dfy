/** Shared rule lists of the ACL cache as values, and what a transaction does to them
    (plugins/policy/renderer/acl/cache/cache_impl.go). */
module AclLists {
  import opened Base
  import opened Rules
  import opened VppAcl

  type Iface = string

  /** What Private remembers of a rendered ACL; its interfaces are replaced before every use. */
  datatype AclBody = AclBody(name: string, rules: seq<AclRule>)

  datatype Entry = Entry(rules: Slice, ifaces: set<Iface>, priv: Option<AclBody>)

  /** Rule lists by their IDs. */
  type Lists = map<string, Entry>

  /** No two lists have the same rules, and no interface is in two lists. */
  ghost predicate Wf(v: Lists) {
    && (forall a, b :: a in v && b in v && a != b ==> v[a].rules != v[b].rules)
    && (forall a, b, i :: a in v && b in v && i in v[a].ifaces && i in v[b].ifaces ==> a == b)
  }

  ghost predicate HasRules(v: Lists, rules: Slice) {
    exists id :: id in v && v[id].rules == rules
  }

  ghost predicate Owns(v: Lists, id: string, i: Iface) {
    id in v && i in v[id].ifaces
  }

  ghost predicate Owned(v: Lists, i: Iface) {
    exists id :: Owns(v, id, i)
  }

  // ----- Operations of ContivRuleLists -----

  function Without(v: Lists, ifaces: set<Iface>): Lists {
    map id | id in v :: v[id].(ifaces := v[id].ifaces - ifaces)
  }

  /** Insert: the interfaces of the new list leave all other lists. */
  function Insert(v: Lists, id: string, e: Entry): Lists {
    Without(v, e.ifaces)[id := e]
  }

  function Assign(v: Lists, id: string, i: Iface): Lists
    requires id in v
  {
    var w := Without(v, {i});
    w[id := w[id].(ifaces := w[id].ifaces + {i})]
  }

  function Unassign(v: Lists, id: string, i: Iface): Lists
    requires id in v
  {
    v[id := v[id].(ifaces := v[id].ifaces - {i})]
  }

  lemma InsertWf(v: Lists, id: string, e: Entry)
    requires Wf(v) && id !in v && !HasRules(v, e.rules)
    ensures Wf(Insert(v, id, e))
  {
  }

  lemma AssignWf(v: Lists, id: string, i: Iface)
    requires Wf(v) && id in v
    ensures Wf(Assign(v, id, i))
  {
  }

  // ----- updateInterface -----

  /** The list that an interface is assigned to. */
  ghost function OwnerOf(v: Lists, i: Iface): string
    requires Owned(v, i)
  {
    var id :| Owns(v, id, i);
    id
  }

  ghost function WithRules(v: Lists, rules: Slice): string
    requires HasRules(v, rules)
  {
    var id :| id in v && v[id].rules == rules;
    id
  }

  /** Copies the list that the interface is in, unless the head has it already. */
  ghost function CopyOriginal(head: Lists, base: Lists, i: Iface): Lists {
    if Owned(base, i) && OwnerOf(base, i) !in head
    then Insert(head, OwnerOf(base, i), base[OwnerOf(base, i)])
    else head
  }

  ghost function Place(head: Lists, base: Lists, i: Iface, rules: Slice, freshID: string): Lists {
    if HasRules(head, rules) then Assign(head, WithRules(head, rules), i)
    else if HasRules(base, rules) then
      var id := WithRules(base, rules);
      if i in base[id].ifaces then head
      else Insert(head, id, base[id].(ifaces := base[id].ifaces + {i}))
    else Insert(head, freshID, Entry(rules, {i}, None))
  }

  ghost function UpdateInterface(head: Lists, base: Lists, i: Iface, rules: Slice, freshID: string): Lists {
    Place(CopyOriginal(head, base, i), base, i, rules, freshID)
  }

  /** Lists of the head are lists of the base with other interfaces, or have new rules. */
  ghost predicate HeadLists(head: Lists, base: Lists) {
    && Wf(head) && Wf(base)
    && (forall id :: id in head && id in base ==> head[id].rules == base[id].rules && head[id].priv == base[id].priv)
    && (forall id :: id in head && id !in base ==> !HasRules(base, head[id].rules))
  }

  /** Each interface updated so far is in a list of the head with its last rules. */
  ghost predicate HeadUpdated(head: Lists, updated: map<Iface, Slice>) {
    forall i :: i in updated ==> exists id :: Owns(head, id, i) && head[id].rules == updated[i]
  }

  /** Interfaces not updated are where the base has them, and the lists of updated ones were
      copied. */
  ghost predicate HeadKeeps(head: Lists, base: Lists, updated: map<Iface, Slice>) {
    && (forall id, i :: Owns(head, id, i) && i !in updated ==> Owns(base, id, i))
    && (forall id, i :: Owns(base, id, i) && i in updated ==> id in head)
    && (forall id, i :: id in head && Owns(base, id, i) && i !in updated ==> Owns(head, id, i))
  }

  /** The invariant of a transaction: updated maps each interface updated so far to its last
      rules. */
  ghost predicate Head(head: Lists, base: Lists, updated: map<Iface, Slice>) {
    HeadLists(head, base) && HeadUpdated(head, updated) && HeadKeeps(head, base, updated)
  }

  lemma EmptyHead(base: Lists)
    requires Wf(base)
    ensures Head(map[], base, map[])
  {
  }

  /** When a base list is copied into the head, none of its interfaces has been updated yet,
      nothing is taken from another list of the head, and no list of the head has its rules, so
      the insertion cannot be rejected. */
  lemma CopyIsSafe(head: Lists, base: Lists, updated: map<Iface, Slice>, id: string)
    requires Head(head, base, updated) && id in base && id !in head
    ensures forall i :: i in base[id].ifaces ==> i !in updated && !Owned(head, i)
    ensures !HasRules(head, base[id].rules)
  {
    forall i | i in base[id].ifaces ensures i !in updated && !Owned(head, i) {
      assert Owns(base, id, i);
      forall x ensures !Owns(head, x, i) {
        assert Owns(head, x, i) ==> Owns(base, x, i);
      }
    }
    forall x | x in head ensures head[x].rules != base[id].rules {
      if x !in base {
        assert !HasRules(base, head[x].rules);
      }
    }
  }

  lemma InsertTakesNothing(v: Lists, id: string, e: Entry)
    requires forall i :: i in e.ifaces ==> !Owned(v, i)
    ensures Insert(v, id, e) == v[id := e]
  {
    forall x | x in v ensures v[x].ifaces - e.ifaces == v[x].ifaces {
      forall i | i in v[x].ifaces ensures i !in e.ifaces {
        assert Owns(v, x, i);
      }
    }
  }

  /** Copying the original list keeps the head invariant and makes the head own the interface
      if the base does. */
  lemma CopyKeepsHead(head: Lists, base: Lists, updated: map<Iface, Slice>, i: Iface)
    requires Head(head, base, updated)
    ensures Head(CopyOriginal(head, base, i), base, updated)
    ensures forall id :: Owns(base, id, i) ==> id in CopyOriginal(head, base, i)
    ensures forall id :: id in head ==> id in CopyOriginal(head, base, i) && CopyOriginal(head, base, i)[id] == head[id]
    ensures forall id :: id in CopyOriginal(head, base, i) ==> id in head || id in base
  {
    if Owned(base, i) {
      var id := OwnerOf(base, i);
      assert forall x :: Owns(base, x, i) ==> x == id;
      if id !in head {
        CopyIsSafe(head, base, updated, id);
        InsertTakesNothing(head, id, base[id]);
        CopiedHead(head, base, updated, id);
      }
    }
  }

  lemma CopiedHead(head: Lists, base: Lists, updated: map<Iface, Slice>, id: string)
    requires Head(head, base, updated) && id in base && id !in head
    requires forall i :: i in base[id].ifaces ==> i !in updated && !Owned(head, i)
    requires !HasRules(head, base[id].rules)
    ensures Head(head[id := base[id]], base, updated)
  {
    CopiedWf(head, base, id);
    CopiedKeeps(head, base, updated, id);
    hide Wf, HeadKeeps;
    var h := head[id := base[id]];
    forall i | i in updated ensures exists x :: Owns(h, x, i) && h[x].rules == updated[i] {
      var x :| Owns(head, x, i) && head[x].rules == updated[i];
      assert Owns(h, x, i);
    }
  }

  lemma CopiedKeeps(head: Lists, base: Lists, updated: map<Iface, Slice>, id: string)
    requires HeadKeeps(head, base, updated) && id in base && id !in head
    ensures HeadKeeps(head[id := base[id]], base, updated)
  {
    var h := head[id := base[id]];
    assert forall x, i :: x != id ==> (Owns(h, x, i) <==> Owns(head, x, i));
    assert forall i :: Owns(h, id, i) <==> Owns(base, id, i);
  }

  lemma CopiedWf(head: Lists, base: Lists, id: string)
    requires Wf(head) && Wf(base) && id in base && !HasRules(head, base[id].rules)
    requires forall i :: i in base[id].ifaces ==> !Owned(head, i)
    ensures Wf(head[id := base[id]])
  {
    var h := head[id := base[id]];
    forall a, b, i | a in h && b in h && i in h[a].ifaces && i in h[b].ifaces ensures a == b {
      assert a != id ==> Owns(head, a, i);
      assert b != id ==> Owns(head, b, i);
    }
  }

  lemma OwnsAfterAssign(v: Lists, target: string, i: Iface, x: string, j: Iface)
    requires target in v
    ensures Owns(Assign(v, target, i), x, j) <==> if j == i then x == target else Owns(v, x, j)
  {
  }

  lemma OwnsAfterInsert(v: Lists, id: string, e: Entry, x: string, j: Iface)
    ensures Owns(Insert(v, id, e), x, j) <==> if x == id then j in e.ifaces else Owns(v, x, j) && j !in e.ifaces
  {
  }

  /** Moving an interface into a list of the head with the wanted rules. */
  lemma AssignKeepsHead(head: Lists, base: Lists, updated: map<Iface, Slice>, i: Iface, target: string)
    requires Head(head, base, updated) && target in head
    requires forall id :: Owns(base, id, i) ==> id in head
    ensures Head(Assign(head, target, i), base, updated[i := head[target].rules])
  {
    hide HeadUpdated, HeadKeeps, HeadLists, Owns;
    var h := Assign(head, target, i);
    AssignHeadLists(head, base, i, target);
    forall x, j ensures Owns(h, x, j) <==> if j == i then x == target else Owns(head, x, j) {
      OwnsAfterAssign(head, target, i, x, j);
    }
    assert h.Keys == head.Keys && forall x :: x in h ==> h[x].rules == head[x].rules;
    MovedKeepsHead(head, h, base, updated, i, target);
  }

  lemma AssignHeadLists(head: Lists, base: Lists, i: Iface, target: string)
    requires HeadLists(head, base) && target in head
    ensures HeadLists(Assign(head, target, i), base)
  {
    hide Wf;
    AssignWf(head, target, i);
  }

  lemma InsertHeadLists(head: Lists, base: Lists, id: string, e: Entry)
    requires HeadLists(head, base) && id !in head && !HasRules(head, e.rules)
    requires if id in base then e.rules == base[id].rules && e.priv == base[id].priv else !HasRules(base, e.rules)
    ensures HeadLists(Insert(head, id, e), base)
  {
    hide Wf;
    InsertWf(head, id, e);
  }

  lemma MovedKeepsHead(head: Lists, h: Lists, base: Lists, updated: map<Iface, Slice>, i: Iface, target: string)
    requires HeadUpdated(head, updated) && HeadKeeps(head, base, updated) && target in head
    requires h.Keys == head.Keys && forall x :: x in h ==> h[x].rules == head[x].rules
    requires forall x, j :: Owns(h, x, j) <==> if j == i then x == target else Owns(head, x, j)
    requires forall id :: Owns(base, id, i) ==> id in head
    ensures HeadUpdated(h, updated[i := head[target].rules]) && HeadKeeps(h, base, updated[i := head[target].rules])
  {
    var u := updated[i := head[target].rules];
    forall j | j in u ensures exists x :: Owns(h, x, j) && h[x].rules == u[j] {
      if j == i {
        assert Owns(h, target, i);
      } else {
        var x :| Owns(head, x, j) && head[x].rules == updated[j];
        assert Owns(h, x, j);
      }
    }
  }

  /** Adding a list that the head does not have and whose rules it does not have, with the
      interface as its only updated one. */
  lemma AddKeepsHead(head: Lists, base: Lists, updated: map<Iface, Slice>, i: Iface, id: string, e: Entry)
    requires Head(head, base, updated) && id !in head && !HasRules(head, e.rules) && i in e.ifaces
    requires forall x :: Owns(base, x, i) ==> x in head
    requires if id in base then e.rules == base[id].rules && e.priv == base[id].priv && e.ifaces == base[id].ifaces + {i}
             else e.ifaces == {i} && !HasRules(base, e.rules)
    ensures Head(Insert(head, id, e), base, updated[i := e.rules])
  {
    var h := Insert(head, id, e);
    hide HeadUpdated, HeadKeeps, HeadLists;
    InsertHeadLists(head, base, id, e);
    if id in base {
      CopyIsSafe(head, base, updated, id);
    }
    forall x, j ensures Owns(h, x, j) <==>
        if j == i then x == id else if x == id then Owns(base, id, j) else Owns(head, x, j) {
      OwnsAfterInsert(head, id, e, x, j);
      assert Owns(head, x, j) ==> Owned(head, j);
    }
    assert h.Keys == head.Keys + {id} && forall x :: x in head ==> h[x].rules == head[x].rules;
    AddedKeepsHead(head, h, base, updated, i, id);
  }

  lemma AddedKeepsHead(head: Lists, h: Lists, base: Lists, updated: map<Iface, Slice>, i: Iface, id: string)
    requires HeadUpdated(head, updated) && HeadKeeps(head, base, updated) && id !in head
    requires h.Keys == head.Keys + {id} && forall x :: x in head ==> h[x].rules == head[x].rules
    requires forall x, j :: Owns(h, x, j) <==>
               if j == i then x == id else if x == id then Owns(base, id, j) else Owns(head, x, j)
    requires forall x :: Owns(base, x, i) ==> x in head
    ensures HeadUpdated(h, updated[i := h[id].rules]) && HeadKeeps(h, base, updated[i := h[id].rules])
  {
    var u := updated[i := h[id].rules];
    forall j | j in u ensures exists x :: Owns(h, x, j) && h[x].rules == u[j] {
      if j == i {
        assert Owns(h, id, i);
      } else {
        var x :| Owns(head, x, j) && head[x].rules == updated[j];
        assert Owns(h, x, j);
      }
    }
  }

  /** Every update keeps the invariant: the interface gets exactly its new rules, and no list is
      ever inserted over one with the same ID or the same rules. */
  lemma UpdateKeepsHead(head: Lists, base: Lists, updated: map<Iface, Slice>, i: Iface, rules: Slice, freshID: string)
    requires Head(head, base, updated) && freshID !in head && freshID !in base
    ensures Head(UpdateInterface(head, base, i, rules, freshID), base, updated[i := rules])
  {
    hide Head, Insert, Assign;
    var copied := CopyOriginal(head, base, i);
    CopyKeepsHead(head, base, updated, i);
    if HasRules(copied, rules) {
      AssignKeepsHead(copied, base, updated, i, WithRules(copied, rules));
    } else if HasRules(base, rules) {
      var id := WithRules(base, rules);
      HeadRules(copied, base, updated, id);
      assert id !in copied;
      assert !Owns(base, id, i);
      AddKeepsHead(copied, base, updated, i, id, base[id].(ifaces := base[id].ifaces + {i}));
    } else {
      AddKeepsHead(copied, base, updated, i, freshID, Entry(rules, {i}, None));
    }
  }

  lemma HeadRules(head: Lists, base: Lists, updated: map<Iface, Slice>, id: string)
    requires Head(head, base, updated) && id in base
    ensures id in head ==> HasRules(head, base[id].rules)
  {
    assert id in head ==> head[id].rules == base[id].rules;
  }

  // ----- Commit -----

  /** What commit does for one list of the head.  A list that lost all its interfaces is handed
      to Remove, which looks for the object of the head in the base and so removes nothing. */
  function CommitOne(base: Lists, id: string, h: Entry): Lists {
    if id in base then
      if h.ifaces == {} || h.ifaces == base[id].ifaces then base
      else Without(base, h.ifaces - base[id].ifaces)[id := base[id].(ifaces := h.ifaces, priv := h.priv)]
    else if h.ifaces != {} then Insert(base, id, h)
    else base
  }

  /** The lists of the head in the order in which they are visited. */
  function CommitAll(base: Lists, head: Lists, order: seq<string>): Lists
    requires forall k :: 0 <= k < |order| ==> order[k] in head
  {
    if order == [] then base
    else CommitOne(CommitAll(base, head, order[..|order| - 1]), order[|order| - 1], head[order[|order| - 1]])
  }

  ghost predicate OwnedBy(v: Lists, ids: set<string>, i: Iface) {
    exists x :: x in ids && Owns(v, x, i)
  }

  /** The lists that the base has once the given lists of the head were committed. */
  ghost predicate KnownAfter(base: Lists, head: Lists, done: set<string>, id: string) {
    id in base || (id in done && id in head && head[id].ifaces != {})
  }

  ghost predicate OwnsAfter(base: Lists, head: Lists, done: set<string>, id: string, i: Iface) {
    if id in done && id in head && head[id].ifaces != {} then Owns(head, id, i)
    else Owns(base, id, i) && !OwnedBy(head, done, i)
  }

  /** b is the base after the lists in done were committed. */
  ghost predicate Committed(base: Lists, head: Lists, done: set<string>, b: Lists) {
    && CommittedLists(base, head, done, b)
    && (forall id, i :: Owns(b, id, i) <==> OwnsAfter(base, head, done, id, i))
  }

  ghost predicate CommittedLists(base: Lists, head: Lists, done: set<string>, b: Lists) {
    && (forall id :: id in b <==> KnownAfter(base, head, done, id))
    && (forall id :: id in b ==> b[id].rules == (if id in base then base[id] else head[id]).rules)
    && (forall id :: id in b ==> b[id].priv == (if id in base then base[id] else head[id]).priv)
  }

  lemma CommittedNothing(base: Lists, head: Lists)
    ensures Committed(base, head, {}, base)
  {
  }

  lemma OwnedByMore(v: Lists, ids: set<string>, id: string, i: Iface)
    ensures OwnedBy(v, ids + {id}, i) <==> OwnedBy(v, ids, i) || Owns(v, id, i)
  {
    if OwnedBy(v, ids, i) {
      var x :| x in ids && Owns(v, x, i);
      assert x in ids + {id};
    }
  }

  /** Committing one more list changes who owns which interface exactly as the head says. */
  lemma CommitOneOwns(base: Lists, head: Lists, done: set<string>, b: Lists, id: string, x: string, i: Iface)
    requires HeadLists(head, base) && Committed(base, head, done, b) && id in head && id !in done
    ensures Owns(CommitOne(b, id, head[id]), x, i) <==> OwnsAfter(base, head, done + {id}, x, i)
  {
    hide Wf;
    var h := head[id];
    OwnedByMore(head, done, id, i);
    assert Owns(b, x, i) <==> OwnsAfter(base, head, done, x, i);
    HeadDisjoint(head, base, done, id, i);
    if h.ifaces == {} {
    } else if id in b && h.ifaces != b[id].ifaces {
      assert Owns(b, id, i) <==> i in b[id].ifaces;
      assert Owns(CommitOne(b, id, h), x, i) <==>
             if x == id then i in h.ifaces else Owns(b, x, i) && i !in h.ifaces - b[id].ifaces;
      OwnersDisjoint(base, head, done, x, id, i);
    } else if id in b {
      assert Owns(b, id, i) <==> Owns(head, id, i);
      OwnersDisjoint(base, head, done, x, id, i);
    } else {
      OwnsAfterInsert(b, id, h, x, i);
    }
  }

  /** An interface of a list still to be committed is in none of those committed already. */
  lemma HeadDisjoint(head: Lists, base: Lists, done: set<string>, id: string, i: Iface)
    requires HeadLists(head, base) && id !in done
    ensures Owns(head, id, i) ==> !OwnedBy(head, done, i)
  {
  }

  lemma OwnersDisjoint(base: Lists, head: Lists, done: set<string>, x: string, y: string, i: Iface)
    requires HeadLists(head, base)
    ensures OwnsAfter(base, head, done, x, i) && OwnsAfter(base, head, done, y, i) ==> x == y
  {
    assert forall z :: z in done && Owns(head, z, i) ==> OwnedBy(head, done, i);
  }

  lemma CommitOneKeeps(base: Lists, head: Lists, done: set<string>, b: Lists, id: string)
    requires HeadLists(head, base) && Committed(base, head, done, b) && id in head && id !in done
    ensures Committed(base, head, done + {id}, CommitOne(b, id, head[id]))
  {
    hide HeadLists, CommittedLists, OwnsAfter, Owns, CommitOne;
    var c := CommitOne(b, id, head[id]);
    forall x, i ensures Owns(c, x, i) <==> OwnsAfter(base, head, done + {id}, x, i) {
      CommitOneOwns(base, head, done, b, id, x, i);
    }
    CommitOneLists(base, head, done, b, id);
  }

  lemma CommitOneLists(base: Lists, head: Lists, done: set<string>, b: Lists, id: string)
    requires HeadLists(head, base) && CommittedLists(base, head, done, b) && id in head && id !in done
    ensures CommittedLists(base, head, done + {id}, CommitOne(b, id, head[id]))
  {
    hide Wf, HasRules;
    var c := CommitOne(b, id, head[id]);
    assert id in b ==> id in base;
    assert forall x :: x in b ==> x in c && c[x].rules == b[x].rules;
    assert forall x :: x in c ==> x in b || x == id;
  }

  lemma {:induction false} CommitAllCommits(base: Lists, head: Lists, order: seq<string>)
    requires HeadLists(head, base) && forall k :: 0 <= k < |order| ==> order[k] in head
    requires forall j, k :: 0 <= j < k < |order| ==> order[j] != order[k]
    ensures Committed(base, head, (set id | id in order), CommitAll(base, head, order))
  {
    hide Committed, HeadLists, CommitOne;
    if order == [] {
      CommittedNothing(base, head);
      assert (set id | id in order) == {};
    } else {
      var init, last := order[..|order| - 1], order[|order| - 1];
      CommitAllCommits(base, head, init);
      assert (set id | id in order) == (set id | id in init) + {last} by { assert order == init + [last]; }
      CommitOneKeeps(base, head, (set id | id in init), CommitAll(base, head, init), last);
    }
  }

  /** A list that loses its last interface stays in the cache, with its rules. */
  lemma EmptiedListStays(base: Lists, head: Lists, updated: map<Iface, Slice>, order: seq<string>, id: string)
    requires Head(head, base, updated)
    requires (forall k :: 0 <= k < |order| ==> order[k] in head) && (forall x :: x in head ==> x in order)
    requires forall j, k :: 0 <= j < k < |order| ==> order[j] != order[k]
    requires id in base && (forall i :: i in base[id].ifaces ==> i in updated)
    requires forall i :: i in updated ==> updated[i] != base[id].rules
    ensures var b := CommitAll(base, head, order); id in b && b[id].rules == base[id].rules && b[id].ifaces == {}
  {
    var b := CommitAll(base, head, order);
    CommitAllCommits(base, head, order);
    forall i ensures i !in b[id].ifaces {
      assert Owns(b, id, i) <==> OwnsAfter(base, head, (set x | x in order), id, i);
      if i in updated {
        var x :| Owns(head, x, i) && head[x].rules == updated[i];
      }
    }
  }

  lemma CommittedWf(base: Lists, head: Lists, done: set<string>, b: Lists)
    requires HeadLists(head, base) && Committed(base, head, done, b)
    ensures Wf(b)
  {
    forall x, y, i | x in b && y in b && i in b[x].ifaces && i in b[y].ifaces ensures x == y {
      assert Owns(b, x, i) && Owns(b, y, i);
      OwnersDisjoint(base, head, done, x, y, i);
    }
    forall x, y | x in b && y in b && x != y ensures b[x].rules != b[y].rules {
      if x in base && y !in base {
        assert !HasRules(base, head[y].rules);
      } else if x !in base && y in base {
        assert !HasRules(base, head[x].rules);
      }
    }
  }

  /** The outcome of a transaction: each updated interface resolves to a list with the rules of
      its last update, every other interface keeps its list, lists keep their rules, and two
      interfaces share a list if and only if their rules are equal. */
  ghost predicate Refines(base: Lists, updated: map<Iface, Slice>, b: Lists) {
    && Wf(b)
    && (forall i :: i in updated ==> exists id :: Owns(b, id, i) && b[id].rules == updated[i])
    && (forall id, i :: i !in updated ==> (Owns(b, id, i) <==> Owns(base, id, i)))
    && (forall id :: id in base ==> id in b && b[id].rules == base[id].rules)
    && (forall x, y, i, j :: Owns(b, x, i) && Owns(b, y, j) ==> (x == y <==> b[x].rules == b[y].rules))
  }

  lemma UpdatedOwns(head: Lists, base: Lists, updated: map<Iface, Slice>, b: Lists, id: string, i: Iface)
    requires Head(head, base, updated) && Committed(base, head, head.Keys, b)
    ensures Owns(head, id, i) ==> Owns(b, id, i) && b[id].rules == head[id].rules
    ensures i !in updated ==> (Owns(b, id, i) <==> Owns(base, id, i))
  {
    assert Owns(head, id, i) ==> OwnsAfter(base, head, head.Keys, id, i);
    assert Owns(b, id, i) <==> OwnsAfter(base, head, head.Keys, id, i);
    if i !in updated {
      if id in head {
        assert Owns(base, id, i) ==> Owns(head, id, i);
      } else {
        forall x | x in head.Keys ensures Owns(head, x, i) ==> !Owns(base, id, i) {
          assert Owns(head, x, i) ==> Owns(base, x, i);
        }
      }
      assert Owns(b, id, i) <==> OwnsAfter(base, head, head.Keys, id, i);
    }
  }

  /** Any sequence of updates followed by commit, in whatever order commit visits the lists,
      refines the plain update of a map from interfaces to rules. */
  lemma CommitRefines(head: Lists, base: Lists, updated: map<Iface, Slice>, order: seq<string>)
    requires Head(head, base, updated)
    requires (forall k :: 0 <= k < |order| ==> order[k] in head) && (forall id :: id in head ==> id in order)
    requires forall j, k :: 0 <= j < k < |order| ==> order[j] != order[k]
    ensures Refines(base, updated, CommitAll(base, head, order))
  {
    hide Wf, CommitAll, OwnsAfter, HeadKeeps, HeadLists, Committed;
    var b := CommitAll(base, head, order);
    CommitAllCommits(base, head, order);
    assert (set id | id in order) == head.Keys;
    CommittedWf(base, head, head.Keys, b);
    forall i | i in updated ensures exists id :: Owns(b, id, i) && b[id].rules == updated[i] {
      var id :| Owns(head, id, i) && head[id].rules == updated[i];
      UpdatedOwns(head, base, updated, b, id, i);
    }
    forall id, i | i !in updated ensures Owns(b, id, i) <==> Owns(base, id, i) {
      UpdatedOwns(head, base, updated, b, id, i);
    }
    CommittedKeepsLists(base, head, head.Keys, b);
    SharingIffEqual(b);
  }

  lemma CommittedKeepsLists(base: Lists, head: Lists, done: set<string>, b: Lists)
    requires Committed(base, head, done, b)
    ensures forall id :: id in base ==> id in b && b[id].rules == base[id].rules
  {
  }

  lemma SharingIffEqual(b: Lists)
    requires Wf(b)
    ensures forall x, y, i, j :: Owns(b, x, i) && Owns(b, y, j) ==> (x == y <==> b[x].rules == b[y].rules)
  {
  }
}
