/** Allocation of node IDs: nodes with distinct labels share a store and agree on unique IDs by
    put-if-absent (plugins/contiv/node_id_allocator.go). */
module NodeIDs {
  import opened Base

  type Label = string

  const MAX_ATTEMPTS := 10

  // ----- The first available ID -----

  /** The least number from k on that is not in the set. */
  function FirstFrom(ids: set<int>, k: int): (r: int)
    ensures k <= r <= k + |ids|
    decreases |ids|
  {
    if k in ids then
      FirstFrom(ids - {k}, k + 1)
    else k
  }

  /** It is not in the set, and everything before it is. */
  lemma {:induction false} FirstIsLeast(ids: set<int>, k: int)
    ensures FirstFrom(ids, k) !in ids
    ensures forall i :: k <= i < FirstFrom(ids, k) ==> i in ids
    decreases |ids|
  {
    if k in ids {
      FirstIsLeast(ids - {k}, k + 1);
      forall i | k <= i < FirstFrom(ids, k) ensures i in ids {
        assert i != k ==> i in ids - {k};
      }
      assert FirstFrom(ids, k) !in ids - {k};
    }
  }

  function FirstAvailable(ids: set<int>): int { FirstFrom(ids, 1) }

  ghost predicate Increasing(ids: seq<int>) {
    forall i, j :: 0 <= i < j < |ids| ==> ids[i] < ids[j]
  }

  /** findFirstAvailableIndex: the first position whose ID is not its own number, which is the first
      available ID for IDs in increasing order, each once, from 1 on. */
  method FindFirstAvailableIndex(ids: seq<int>) returns (res: int)
    ensures 1 <= res <= |ids| + 1
    ensures (forall i :: 0 <= i < res - 1 ==> ids[i] == i + 1) && (res <= |ids| ==> ids[res - 1] != res)
    ensures Increasing(ids) && (forall v :: v in ids ==> 1 <= v) ==> res == FirstAvailable(set v | v in ids)
  {
    res := 1;
    for n := 0 to |ids|
      invariant res == n + 1 && forall i :: 0 <= i < n ==> ids[i] == i + 1
    {
      if res == ids[n] {
        res := res + 1;
      } else {
        FirstIs(ids, n);
        return;
      }
    }
    FirstIs(ids, |ids|);
  }

  lemma FirstIs(ids: seq<int>, n: nat)
    requires n <= |ids| && (forall i :: 0 <= i < n ==> ids[i] == i + 1) && (n < |ids| ==> ids[n] != n + 1)
    ensures Increasing(ids) && (forall v :: v in ids ==> 1 <= v) ==> FirstAvailable(set v | v in ids) == n + 1
  {
    if Increasing(ids) && forall v :: v in ids ==> 1 <= v {
      var s := set v | v in ids;
      forall v | 1 <= v <= n ensures v in s {
        assert ids[v - 1] == v;
      }
      if n < |ids| {
        assert ids[n] in ids && (n > 0 ==> ids[n - 1] < ids[n]);
      }
      assert n + 1 !in s;
      FirstIsLeast(s, 1);
    }
  }

  // ----- The protocol -----

  /** What a node remembers between its accesses to the store. */
  datatype Node =
    | Idle
    | Searched(attempts: nat)              // found no entry with its label
    | Candidate(id: int, attempts: nat)    // about to claim an ID
    | Holding(id: int)                     // allocated

  datatype Cluster = Cluster(store: map<int, Label>, nodes: map<Label, Node>)

  /** One access to the store, or a loss of the memory of a node. */
  datatype Action =
    | Find(node: Label)
    | List(node: Label)
    | Put(node: Label)
    | PutError(node: Label, applied: bool)   // the reply is an error although the put may be applied
    | Release(node: Label)
    | ReleaseError(node: Label, applied: bool)   // likewise for the deletion of the entry
    | Crash(node: Label)                     // also any failed read

  predicate HasEntry(store: map<int, Label>, l: Label) {
    exists id :: id in store && store[id] == l
  }

  function EntryIds(store: map<int, Label>, l: Label): set<int> {
    set id | id in store && store[id] == l
  }

  function EntryOf(store: map<int, Label>, l: Label): (id: int)
    requires HasEntry(store, l)
    ensures id in store && store[id] == l
  {
    assert EntryIds(store, l) != {} by {
      var id :| id in store && store[id] == l;
      assert id in EntryIds(store, l);
    }
    Smallest(EntryIds(store, l))
  }

  function Smallest(s: set<int>): (m: int)
    requires s != {}
    ensures m in s && forall x :: x in s ==> m <= x
  {
    SmallestExists(s);
    var m :| m in s && forall x :: x in s ==> m <= x;
    m
  }

  lemma {:induction false} SmallestExists(s: set<int>)
    requires s != {}
    ensures exists m :: m in s && forall x :: x in s ==> m <= x
  {
    Nonempty(s);
    var y :| y in s;
    if s == {y} {
    } else {
      var rest := s - {y};
      SmallestExists(rest);
      var m :| m in rest && forall x :: x in rest ==> m <= x;
      var least := if y < m then y else m;
      forall x | x in s ensures least <= x {
        assert x == y || x in rest;
      }
      assert least in s;
    }
  }

  predicate Enabled(c: Cluster, a: Action) {
    && a.node in c.nodes
    && match a
       case Find(l) => c.nodes[l].Idle?
       case List(l) => c.nodes[l].Searched?
       case Put(l) => c.nodes[l].Candidate?
       case PutError(l, _) => c.nodes[l].Candidate?
       case Release(l) => c.nodes[l].Holding?
       case ReleaseError(l, _) => c.nodes[l].Holding?
       case Crash(l) => true
  }

  function StoreAfter(c: Cluster, a: Action): map<int, Label>
    requires Enabled(c, a)
  {
    match a
    case Put(l) => if c.nodes[l].id in c.store then c.store else c.store[c.nodes[l].id := l]
    case PutError(l, applied) => if applied && c.nodes[l].id !in c.store then c.store[c.nodes[l].id := l] else c.store
    case Release(l) => c.store - {c.nodes[l].id}
    case ReleaseError(l, applied) => if applied then c.store - {c.nodes[l].id} else c.store
    case _ => c.store
  }

  function NodeAfter(c: Cluster, a: Action): Node
    requires Enabled(c, a)
  {
    match a
    case Find(l) => if HasEntry(c.store, l) then Holding(EntryOf(c.store, l)) else Searched(0)
    case List(l) => Candidate(FirstAvailable(c.store.Keys), c.nodes[l].attempts + 1)
    case Put(l) =>
      if c.nodes[l].id !in c.store then Holding(c.nodes[l].id)
      else if c.nodes[l].attempts > MAX_ATTEMPTS then Idle
      else Searched(c.nodes[l].attempts)
    case ReleaseError(l, _) => c.nodes[l]
    case _ => Idle
  }

  /** A deletion that is applied although the node is told otherwise. */
  predicate Loses(a: Action) {
    a.ReleaseError? && a.applied
  }

  /** Actions that are not enabled do nothing. */
  function Step(c: Cluster, a: Action): Cluster {
    if Enabled(c, a) then Cluster(StoreAfter(c, a), c.nodes[a.node := NodeAfter(c, a)]) else c
  }

  function Run(c: Cluster, actions: seq<Action>): Cluster {
    if actions == [] then c else Step(Run(c, actions[..|actions| - 1]), actions[|actions| - 1])
  }

  // ----- Invariant -----

  /** At most one entry per label, all from the labels of the cluster. */
  ghost predicate StoreOk(store: map<int, Label>, labels: set<Label>) {
    && (forall id :: id in store ==> store[id] in labels && 1 <= id <= |labels|)
    && (forall i, j :: i in store && j in store && store[i] == store[j] ==> i == j)
  }

  ghost predicate NodeOk(c: Cluster, l: Label)
    requires l in c.nodes
  {
    match c.nodes[l]
    case Idle => true
    case Searched(k) => !HasEntry(c.store, l) && k <= MAX_ATTEMPTS
    case Candidate(id, k) => !HasEntry(c.store, l) && 1 <= id <= |c.nodes.Keys| && k <= MAX_ATTEMPTS + 1
    case Holding(id) => id in c.store && c.store[id] == l
  }

  ghost predicate Inv(c: Cluster) {
    StoreOk(c.store, c.nodes.Keys) && forall l :: l in c.nodes ==> NodeOk(c, l)
  }

  /** With one entry per label, a label without an entry leaves room below the number of
      labels. */
  lemma FewEntries(store: map<int, Label>, labels: set<Label>, l: Label)
    requires StoreOk(store, labels) && l in labels && !HasEntry(store, l)
    ensures |store.Keys| < |labels|
  {
    EntriesPerLabel(store, labels - {l});
  }

  lemma {:induction false} EntriesPerLabel(store: map<int, Label>, labels: set<Label>)
    requires forall id :: id in store ==> store[id] in labels
    requires forall i, j :: i in store && j in store && store[i] == store[j] ==> i == j
    ensures |store.Keys| <= |labels|
    decreases |labels|
  {
    if store.Keys != {} {
      Nonempty(store.Keys);
      var id :| id in store.Keys;
      var rest := store - {id};
      assert rest.Keys == store.Keys - {id};
      EntriesPerLabel(rest, labels - {store[id]});
    }
  }

  lemma OthersKeep(c: Cluster, a: Action, l: Label)
    requires Inv(c) && Enabled(c, a) && !Loses(a) && l in c.nodes && l != a.node
    ensures NodeOk(Step(c, a), l)
  {
    hide FirstFrom, EntryOf;
    var d := Step(c, a);
    assert d.nodes[l] == c.nodes[l] && d.nodes.Keys == c.nodes.Keys;
    assert NodeOk(c, l);
    forall id ensures id in d.store && d.store[id] == l <==> id in c.store && c.store[id] == l {
      if a.Release? { assert NodeOk(c, a.node); }
    }
    assert HasEntry(d.store, l) <==> HasEntry(c.store, l);
  }

  lemma OwnStep(c: Cluster, a: Action)
    requires Inv(c) && Enabled(c, a) && !Loses(a)
    ensures NodeOk(Step(c, a), a.node) && StoreOk(StoreAfter(c, a), c.nodes.Keys)
  {
    hide FirstFrom, EntryOf;
    var l, d := a.node, Step(c, a);
    assert NodeOk(c, l);
    assert d.nodes.Keys == c.nodes.Keys;
    if a.List? {
      FewEntries(c.store, c.nodes.Keys, l);
    }
  }

  /** Every step of every node keeps the invariant, unless a deletion gets lost. */
  lemma StepKeeps(c: Cluster, a: Action)
    requires Inv(c) && !Loses(a)
    ensures Inv(Step(c, a)) && Step(c, a).nodes.Keys == c.nodes.Keys
  {
    hide StoreAfter, NodeAfter, NodeOk, StoreOk;
    if Enabled(c, a) {
      OwnStep(c, a);
      forall l | l in c.nodes && l != a.node ensures NodeOk(Step(c, a), l) {
        OthersKeep(c, a, l);
      }
      assert Step(c, a).nodes.Keys == c.nodes.Keys;
    }
  }

  /** A cluster that has just been set up. */
  function Initial(labels: set<Label>): Cluster {
    Cluster(map[], map l | l in labels :: Idle)
  }

  ghost predicate NothingLost(actions: seq<Action>) {
    forall a :: a in actions ==> !Loses(a)
  }

  lemma {:induction false} RunKeeps(c: Cluster, actions: seq<Action>)
    requires Inv(c) && NothingLost(actions)
    ensures Inv(Run(c, actions)) && Run(c, actions).nodes.Keys == c.nodes.Keys
  {
    hide Inv, Step;
    if actions != [] {
      RunKeeps(c, actions[..|actions| - 1]);
      StepKeeps(Run(c, actions[..|actions| - 1]), actions[|actions| - 1]);
    }
  }

  ghost predicate DistinctIDs(c: Cluster) {
    forall l, m :: l in c.nodes && m in c.nodes && c.nodes[l].Holding? && c.nodes[m].Holding? && l != m ==>
      c.nodes[l].id != c.nodes[m].id
  }

  /** After every interleaving of the steps of the nodes, with crashes and ambiguous errors of
      puts: one entry per label, a node that holds an ID owns its entry, no two nodes hold the
      same ID, and IDs are 1 to N, so that for at most 255 nodes the cast to uint8 loses nothing. */
  lemma IDsAreUnique(labels: set<Label>, actions: seq<Action>, l: Label)
    requires NothingLost(actions)
    ensures var c := Run(Initial(labels), actions);
            && StoreOk(c.store, labels) && c.nodes.Keys == labels && DistinctIDs(c)
            && (l in c.nodes && c.nodes[l].Holding? ==>
                  && c.nodes[l].id in c.store && c.store[c.nodes[l].id] == l && 1 <= c.nodes[l].id <= |labels|
                  && (|labels| <= 255 ==> c.nodes[l].id % 256 == c.nodes[l].id))
  {
    hide Run, Step;
    var c0 := Initial(labels);
    assert c0.nodes.Keys == labels;
    RunKeeps(c0, actions);
    var c := Run(c0, actions);
    assert l in c.nodes ==> NodeOk(c, l);
    assert forall m :: m in c.nodes && c.nodes[m].Holding? ==> NodeOk(c, m);
  }

  // ----- A deletion that gets lost -----

  lemma RunSnoc(c: Cluster, actions: seq<Action>, a: Action)
    ensures Run(c, actions + [a]) == Step(Run(c, actions), a)
  {
    assert (actions + [a])[..|actions|] == actions;
  }

  /** A node that looks for an ID undisturbed gets the first one. */
  lemma ClaimFirst(c: Cluster, actions: seq<Action>, l: Label)
    requires var d := Run(c, actions); d.store == map[] && l in d.nodes && d.nodes[l] == Idle
    ensures Run(c, actions + [Find(l)] + [List(l)] + [Put(l)]) ==
            Cluster(map[1 := l], Run(c, actions).nodes[l := Holding(1)])
  {
    var d := Run(c, actions);
    RunSnoc(c, actions, Find(l));
    assert !HasEntry(d.store, l);
    RunSnoc(c, actions + [Find(l)], List(l));
    FirstIsLeast({}, 1);
    RunSnoc(c, actions + [Find(l)] + [List(l)], Put(l));
  }

  /** If a deletion is applied while the node is told that it failed, another node is given the
      same ID. */
  lemma LostDeletionDuplicates(labels: set<Label>, l: Label, m: Label) returns (actions: seq<Action>)
    requires l in labels && m in labels && l != m
    ensures forall a :: a in actions && Loses(a) ==> a == ReleaseError(l, true)
    ensures !DistinctIDs(Run(Initial(labels), actions))
  {
    hide FirstFrom, Run;
    var c := Initial(labels);
    RunNothing(c);
    ClaimFirst(c, [], l);
    var first := [] + [Find(l)] + [List(l)] + [Put(l)];
    RunSnoc(c, first, ReleaseError(l, true));
    var lost := first + [ReleaseError(l, true)];
    ClaimFirst(c, lost, m);
    actions := lost + [Find(m)] + [List(m)] + [Put(m)];
    assert Run(c, actions).nodes[l] == Holding(1) && Run(c, actions).nodes[m] == Holding(1);
  }

  lemma RunNothing(c: Cluster)
    ensures Run(c, []) == c
  {
  }

  /** IDs are distinct after every run without a lost deletion, and after all runs if and only if there
      are no two nodes. */
  lemma DistinctUnlessLost(labels: set<Label>)
    ensures forall actions :: NothingLost(actions) ==> DistinctIDs(Run(Initial(labels), actions))
    ensures (forall actions :: DistinctIDs(Run(Initial(labels), actions))) <==> forall l, m :: l in labels && m in labels ==> l == m
  {
    hide Run, FirstFrom, NothingLost;
    forall actions | NothingLost(actions) ensures DistinctIDs(Run(Initial(labels), actions)) {
      IDsAreUnique(labels, actions, "");
    }
    if l, m :| l in labels && m in labels && l != m {
      hide DistinctIDs;
      var actions := LostDeletionDuplicates(labels, l, m);
    } else {
      forall actions ensures DistinctIDs(Run(Initial(labels), actions)) {
        RunLabels(labels, actions);
      }
    }
  }

  lemma {:induction false} RunLabels(labels: set<Label>, actions: seq<Action>)
    ensures Run(Initial(labels), actions).nodes.Keys == labels
  {
    hide StoreAfter, NodeAfter;
    if actions == [] {
      assert Initial(labels).nodes.Keys == labels;
    } else {
      RunLabels(labels, actions[..|actions| - 1]);
    }
  }

  // ----- When a node gives up -----

  /** How many puts of a node have been refused since it last looked for its entry. */
  function Refusals(c: Cluster, actions: seq<Action>, l: Label): nat {
    if actions == [] then 0
    else
      var init, a := actions[..|actions| - 1], actions[|actions| - 1];
      var before := Run(c, init);
      if a.node != l || !Enabled(before, a) then Refusals(c, init, l)
      else if a.Find? then 0
      else if a.Put? && before.nodes[l].id in before.store then Refusals(c, init, l) + 1
      else Refusals(c, init, l)
  }

  /** The attempts that a node counts are its refused puts. */
  lemma {:induction false} AttemptsAreRefusals(labels: set<Label>, actions: seq<Action>, l: Label)
    requires l in labels
    ensures var c := Run(Initial(labels), actions);
            && l in c.nodes
            && (c.nodes[l].Searched? ==> c.nodes[l].attempts == Refusals(Initial(labels), actions, l) <= 10)
            && (c.nodes[l].Candidate? ==> c.nodes[l].attempts == Refusals(Initial(labels), actions, l) + 1 <= 11)
  {
    hide FirstFrom, EntryOf, StoreAfter;
    if actions != [] {
      AttemptsAreRefusals(labels, actions[..|actions| - 1], l);
    }
  }

  /** A refused put makes a node give up if and only if it is the eleventh since the node looked for
      its entry; there is never a twelfth. */
  lemma GivesUpIff(labels: set<Label>, actions: seq<Action>, l: Label)
    requires l in labels
    requires var c := Run(Initial(labels), actions); Enabled(c, Put(l)) && c.nodes[l].id in c.store
    ensures Run(Initial(labels), actions + [Put(l)]).nodes[l] == Idle <==>
            Refusals(Initial(labels), actions + [Put(l)], l) == 11
    ensures Refusals(Initial(labels), actions + [Put(l)], l) <= 11
  {
    hide FirstFrom, EntryOf, Run;
    AttemptsAreRefusals(labels, actions, l);
    RunSnoc(Initial(labels), actions, Put(l));
    assert (actions + [Put(l)])[..|actions|] == actions;
  }

  /** A rival that takes the chosen ID before the put and returns it afterwards. */
  function Rounds(l: Label, m: Label, k: nat): seq<Action> {
    if k == 0 then [] + [Find(l)]
    else Rounds(l, m, k - 1) + [List(l)] + [Find(m)] + [List(m)] + [Put(m)] + [Put(l)] + [Release(m)]
  }

  /** Against such a rival a node makes all eleven puts and gives up. */
  lemma {:induction false} RivalWins(l: Label, m: Label, k: nat)
    requires l != m && k <= 11
    ensures Run(Initial({l, m}), Rounds(l, m, k)) ==
            Cluster(map[], map[l := if k <= 10 then Searched(k) else Idle, m := Idle])
    ensures Refusals(Initial({l, m}), Rounds(l, m, k), l) == k
  {
    hide FirstFrom, Run, Refusals, Step;
    var c := Initial({l, m});
    if k == 0 {
      RivalStart(l, m);
    } else {
      hide Initial;
      RivalWins(l, m, k - 1);
      RivalRound(c, Rounds(l, m, k - 1), l, m, k - 1);
    }
  }

  lemma RivalStart(l: Label, m: Label)
    requires l != m
    ensures Run(Initial({l, m}), Rounds(l, m, 0)) == Cluster(map[], map[l := Searched(0), m := Idle])
    ensures Refusals(Initial({l, m}), Rounds(l, m, 0), l) == 0
  {
    hide Run;
    var c := Initial({l, m});
    RunNothing(c);
    RunSnoc(c, [], Find(l));
    assert !HasEntry(c.store, l);
  }

  lemma RivalRound(c: Cluster, before: seq<Action>, l: Label, m: Label, k: nat)
    requires l != m && k <= 10 && Run(c, before) == Cluster(map[], map[l := Searched(k), m := Idle])
    ensures var after := before + [List(l)] + [Find(m)] + [List(m)] + [Put(m)] + [Put(l)] + [Release(m)];
            && Run(c, after) == Cluster(map[], map[l := if k < 10 then Searched(k + 1) else Idle, m := Idle])
            && Refusals(c, after, l) == Refusals(c, before, l) + 1
  {
    hide FirstFrom, Run, Refusals, Step, Enabled, HasEntry;
    var a1 := before + [List(l)];
    RunSnoc(c, before, List(l));
    RefusalsSnoc(c, before, List(l), l);
    RivalList(l, m, k);
    RivalSteps(l, m, k);
    ClaimFirst(c, a1, m);
    RefusalsSnoc(c, a1, Find(m), l);
    RefusalsSnoc(c, a1 + [Find(m)], List(m), l);
    RefusalsSnoc(c, a1 + [Find(m)] + [List(m)], Put(m), l);
    var a2 := a1 + [Find(m)] + [List(m)] + [Put(m)];
    assert Run(c, a2) == Cluster(map[1 := m], map[l := Candidate(1, k + 1), m := Holding(1)]);
    RunSnoc(c, a2, Put(l));
    RefusalsSnoc(c, a2, Put(l), l);
    RunSnoc(c, a2 + [Put(l)], Release(m));
    RefusalsSnoc(c, a2 + [Put(l)], Release(m), l);
  }

  lemma RivalList(l: Label, m: Label, k: nat)
    requires l != m
    ensures Step(Cluster(map[], map[l := Searched(k), m := Idle]), List(l)) == Cluster(map[], map[l := Candidate(1, k + 1), m := Idle])
  {
    FirstIsLeast({}, 1);
  }

  lemma RivalSteps(l: Label, m: Label, k: nat)
    requires l != m && k <= 10
    ensures var c := Cluster(map[1 := m], map[l := Candidate(1, k + 1), m := Holding(1)]);
            var n := if k < 10 then Searched(k + 1) else Idle;
            && Enabled(c, Put(l))
            && Step(c, Put(l)) == Cluster(map[1 := m], map[l := n, m := Holding(1)])
            && Step(Step(c, Put(l)), Release(m)) == Cluster(map[], map[l := n, m := Idle])
  {
    hide FirstFrom, HasEntry;
  }

  lemma RefusalsSnoc(c: Cluster, actions: seq<Action>, a: Action, l: Label)
    ensures a.node != l || a.List? ==> Refusals(c, actions + [a], l) == Refusals(c, actions, l)
    ensures a == Put(l) && Enabled(Run(c, actions), a) && Run(c, actions).nodes[l].id in Run(c, actions).store ==>
              Refusals(c, actions + [a], l) == Refusals(c, actions, l) + 1
  {
    hide Run;
    assert (actions + [a])[..|actions|] == actions;
  }
}
