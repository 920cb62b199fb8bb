/** Session tables and the transactional cache over them
    (plugins/policy/renderer/vpptcp/cache/cache_impl.go). */
module SessionCache {
  import opened Base
  import opened Net
  import opened Rules
  import opened SessionRules
  import opened CombinedRules
  import opened Conversion
  import opened TableSpec

  // ----- Tables as values -----

  datatype Tables = Tables(global: seq<SessionRule>, local: map<uint32, seq<SessionRule>>)

  function LocalOf(t: Tables, ns: uint32): seq<SessionRule> {
    if ns in t.local then t.local[ns] else []
  }

  ghost predicate InTables(t: Tables, r: SessionRule) {
    r in t.global || exists ns :: ns in t.local && r in t.local[ns]
  }

  /** The table that a rule belongs to is a function of the rule. */
  ghost predicate WellPlaced(t: Tables) {
    && Sorted(t.global) && (forall r :: r in t.global ==> r.scope != RULE_SCOPE_LOCAL)
    && (forall ns :: ns in t.local ==> Sorted(t.local[ns]))
    && (forall ns, r :: ns in t.local && r in t.local[ns] ==> r.scope == RULE_SCOPE_LOCAL && r.appnsIndex == ns)
  }

  /** Rules of one set of tables differ in more than their tags. */
  lemma NoTwinsInTables(t: Tables, x: SessionRule, y: SessionRule)
    requires WellPlaced(t) && InTables(t, x) && InTables(t, y) && EqualUpToTag(x, y)
    ensures x == y
  {
    hide Sorted;
    assert x.scope == y.scope && x.appnsIndex == y.appnsIndex;
    if x in t.global {
      SortedNoTwins(t.global, x, y);
    } else {
      SortedNoTwins(t.local[x.appnsIndex], x, y);
    }
  }

  lemma PlacedMember(t: Tables, r: SessionRule)
    requires WellPlaced(t)
    ensures InTables(t, r) <==> if r.scope == RULE_SCOPE_LOCAL then r in LocalOf(t, r.appnsIndex) else r in t.global
  {
    hide Sorted;
  }

  /** The tables that implement a configuration. */
  ghost predicate IsTablesFor(names: Names, cfg: Config, t: Tables) {
    && IsGlobalTable(names, cfg, t.global)
    && t.local.Keys == cfg.Keys
    && forall ns :: ns in cfg ==> IsLocalTable(names, cfg, ns, t.local[ns])
  }

  lemma TablesForUnique(names: Names, cfg: Config, s: Tables, t: Tables)
    requires IsTablesFor(names, cfg, s) && IsTablesFor(names, cfg, t)
    ensures s == t
  {
    hide IsGlobalTable, IsLocalTable;
    TablesUnique(names, cfg, 0, s.global, t.global);
    forall ns | ns in cfg ensures s.local[ns] == t.local[ns] {
      TablesUnique(names, cfg, ns, s.local[ns], t.local[ns]);
    }
  }

  ghost predicate Tagged(names: Names, r: SessionRule) {
    exists k :: names.tag(k) == r.tag
  }

  lemma LocalMarks(names: Names, cfg: Config, ns: uint32, s: SessionRule)
    requires InLocal(names, cfg, ns, s)
    ensures s.scope == 2 && s.appnsIndex == ns && Tagged(names, s)
  {
    var r := LocalFrom(names, cfg, ns, s);
    IngressTags(names, ns, r, s);
  }

  lemma IngressTags(names: Names, ns: uint32, r: Rule, s: SessionRule)
    requires s in IngressOne(names.tag, ns, r)
    ensures s.scope == RULE_SCOPE_LOCAL && s.appnsIndex == ns && Tagged(names, s) && TagOf(names, ns, false, r.id, s)
  {
    var part := if r.dest.Subnet? then Whole
                else if s.isIP4 == 1 then (if s.rmtIP == LOWER_HALF then V4Half1 else V4Half2)
                else (if s.rmtIP == LOWER_HALF then V6Half1 else V6Half2);
    assert LOWER_HALF[0] != UPPER_HALF[0];
    assert s.tag == names.tag(TagKey(ns, false, r.id, part));
  }

  lemma GlobalMarks(names: Names, cfg: Config, s: SessionRule)
    requires InGlobal(names, cfg, s)
    ensures s.scope == 1 && Tagged(names, s)
  {
    var ns, r := GlobalFrom(names, cfg, s);
    EgressTags(names, ns, cfg[ns].ip, r, s);
  }

  lemma EgressTags(names: Names, ns: uint32, ip: Address, r: Rule, s: SessionRule)
    requires s in EgressOne(names.tag, ns, ip, r)
    ensures s.scope == RULE_SCOPE_GLOBAL && Tagged(names, s) && TagOf(names, ns, true, r.id, s)
  {
    var part := if r.src.Subnet? then Whole else if s.rmtIP == LOWER_HALF then Half1 else Half2;
    assert LOWER_HALF[0] != UPPER_HALF[0];
    assert s.tag == names.tag(TagKey(ns, true, r.id, part));
  }

  lemma TablesForPlaced(names: Names, cfg: Config, t: Tables)
    requires IsTablesFor(names, cfg, t)
    ensures WellPlaced(t)
    ensures forall r :: InTables(t, r) ==> Tagged(names, r)
  {
    hide InLocal, InGlobal, Sorted;
    forall r | r in t.global ensures r.scope != RULE_SCOPE_LOCAL && Tagged(names, r) {
      GlobalMarks(names, cfg, r);
    }
    forall ns, r | ns in t.local && r in t.local[ns]
      ensures r.scope == RULE_SCOPE_LOCAL && r.appnsIndex == ns && Tagged(names, r)
    {
      LocalMarks(names, cfg, ns, r);
    }
  }

  // ----- Tags -----

  ghost predicate InjectiveNames(names: Names) {
    && (forall k, l :: names.tag(k) == names.tag(l) ==> k == l)
    && (forall c: CombinedID, d: CombinedID :: c.ns == d.ns && names.combined(c) == names.combined(d) ==> c == d)
  }

  ghost predicate NoCombinedIDs(names: Names, ns: uint32, rules: seq<Rule>) {
    forall r, c: CombinedID :: r in rules && c.ns == ns ==> names.combined(c) != r.id
  }

  /** The IDs tell the rules of every namespace apart, also from the combined ones. */
  ghost predicate GoodIDs(names: Names, cfg: Config) {
    && InjectiveNames(names)
    && forall ns :: ns in cfg ==>
         IDsDistinct(cfg[ns].ingress) && IDsDistinct(cfg[ns].egress) && NoCombinedIDs(names, ns, cfg[ns].ingress)
  }

  ghost predicate TagOf(names: Names, ns: uint32, egress: bool, id: string, s: SessionRule) {
    exists part :: s.tag == names.tag(TagKey(ns, egress, id, part))
  }

  lemma TagsTell(names: Names, n1: uint32, e1: bool, id1: string, s: SessionRule, n2: uint32, e2: bool, id2: string, t: SessionRule)
    requires InjectiveNames(names) && TagOf(names, n1, e1, id1, s) && TagOf(names, n2, e2, id2, t) && s.tag == t.tag
    ensures n1 == n2 && e1 == e2 && id1 == id2
  {
    var p1 :| s.tag == names.tag(TagKey(n1, e1, id1, p1));
    var p2 :| t.tag == names.tag(TagKey(n2, e2, id2, p2));
    assert names.tag(TagKey(n1, e1, id1, p1)) == names.tag(TagKey(n2, e2, id2, p2));
  }

  /** The session rules of one rule have different tags. */
  lemma IngressTagsDiffer(names: Names, ns: uint32, r: Rule, s: SessionRule, t: SessionRule)
    requires InjectiveNames(names) && s in IngressOne(names.tag, ns, r) && t in IngressOne(names.tag, ns, r) && s.tag == t.tag
    ensures s == t
  {
    var key := (part: Part) => names.tag(TagKey(ns, false, r.id, part));
    assert key(V4Half1) != key(V4Half2) && key(V4Half1) != key(V6Half1) && key(V4Half1) != key(V6Half2);
    assert key(V4Half2) != key(V6Half1) && key(V4Half2) != key(V6Half2) && key(V6Half1) != key(V6Half2);
  }

  lemma EgressTagsDiffer(names: Names, ns: uint32, ip: Address, r: Rule, s: SessionRule, t: SessionRule)
    requires InjectiveNames(names) && s in EgressOne(names.tag, ns, ip, r) && t in EgressOne(names.tag, ns, ip, r) && s.tag == t.tag
    ensures s == t
  {
    assert names.tag(TagKey(ns, true, r.id, Half1)) != names.tag(TagKey(ns, true, r.id, Half2));
  }

  /** The rule of the configuration that a session rule of a local table stems from. */
  ghost predicate LocalSource(names: Names, cfg: Config, ns: uint32, r: Rule) {
    ns in cfg && (r in cfg[ns].ingress || IsNew(names.combined, cfg, ns, AllDone(cfg), r))
  }

  lemma LocalFrom(names: Names, cfg: Config, ns: uint32, s: SessionRule) returns (r: Rule)
    requires InLocal(names, cfg, ns, s)
    ensures LocalSource(names, cfg, ns, r) && s in IngressOne(names.tag, ns, r)
  {
    hide FlatMap, IngressOne, Kept;
    if IsNewSession(names, cfg, ns, s) {
      r :| IsNew(names.combined, cfg, ns, AllDone(cfg), r) && s in IngressOne(names.tag, ns, r);
    } else {
      FlatMapMember(IngressOf(names.tag, ns), KeptAll(cfg, ns), s);
      r :| r in KeptAll(cfg, ns) && s in IngressOf(names.tag, ns)(r);
      KeptIsOriginal(cfg, ns, AllDone(cfg), cfg[ns].ingress, r);
    }
  }

  lemma {:induction false} KeptIsOriginal(cfg: Config, ns: uint32, done: Done, rules: seq<Rule>, r: Rule)
    requires r in Kept(cfg, ns, done, rules)
    ensures r in rules
  {
    if r in Kept(cfg, ns, done, rules[..|rules| - 1]) {
      KeptIsOriginal(cfg, ns, done, rules[..|rules| - 1], r);
    }
  }

  lemma SourcesTold(names: Names, cfg: Config, ns: uint32, x: Rule, y: Rule)
    requires GoodIDs(names, cfg) && LocalSource(names, cfg, ns, x) && LocalSource(names, cfg, ns, y) && x.id == y.id
    ensures x == y
  {
    hide IDsDistinct, Restricted;
    assert IDsDistinct(cfg[ns].ingress) && NoCombinedIDs(names, ns, cfg[ns].ingress);
    if x in cfg[ns].ingress && y in cfg[ns].ingress {
      SameID(cfg[ns].ingress, x, y);
    } else if x in cfg[ns].ingress {
      var rmt, c := NewID(names, cfg, ns, y);
    } else {
      var rmt, c := NewID(names, cfg, ns, x);
      if y in cfg[ns].ingress {
      } else {
        var rmt', d := NewID(names, cfg, ns, y);
      }
    }
  }

  lemma SameID(rules: seq<Rule>, x: Rule, y: Rule)
    requires IDsDistinct(rules) && x in rules && y in rules && x.id == y.id
    ensures x == y
  {
  }

  /** The ID of a combined rule determines the rule. */
  lemma NewID(names: Names, cfg: Config, ns: uint32, r: Rule) returns (rmt: uint32, c: CombinedID)
    requires ns in cfg && IsNew(names.combined, cfg, ns, AllDone(cfg), r)
    ensures rmt in cfg && c.ns == ns && c.rmtNs == rmt && r.id == names.combined(c)
    ensures r == if c.port.None? then DenyRest(names.combined, cfg, ns, rmt, c.proto)
                 else PermitPort(names.combined, cfg, ns, rmt, c.proto, c.port.value)
  {
    rmt := NewRuleHost(names.combined, cfg, ns, r);
    c := CombinedID(ns, rmt, r.proto, if r == DenyRest(names.combined, cfg, ns, rmt, r.proto) then None else Some(r.destPort));
  }

  lemma LocalTagUnique(names: Names, cfg: Config, n1: uint32, s: SessionRule, n2: uint32, t: SessionRule)
    requires GoodIDs(names, cfg) && InLocal(names, cfg, n1, s) && InLocal(names, cfg, n2, t) && s.tag == t.tag
    ensures s == t
  {
    hide InLocal, IngressOne, LocalSource;
    var x := LocalFrom(names, cfg, n1, s);
    var y := LocalFrom(names, cfg, n2, t);
    IngressTags(names, n1, x, s);
    IngressTags(names, n2, y, t);
    TagsTell(names, n1, false, x.id, s, n2, false, y.id, t);
    SourcesTold(names, cfg, n1, x, y);
    IngressTagsDiffer(names, n1, x, s, t);
  }

  lemma GlobalFrom(names: Names, cfg: Config, s: SessionRule) returns (ns: uint32, r: Rule)
    requires InGlobal(names, cfg, s)
    ensures ns in cfg && r in cfg[ns].egress && s in EgressOne(names.tag, ns, cfg[ns].ip, r)
  {
    hide FlatMap;
    ns :| ns in cfg && IsFirst(EgressRules(names.tag, ns, cfg[ns].ip, cfg[ns].egress), s);
    FlatMapMember(EgressOf(names.tag, ns, cfg[ns].ip), cfg[ns].egress, s);
    r :| r in cfg[ns].egress && s in EgressOf(names.tag, ns, cfg[ns].ip)(r);
  }

  lemma GlobalTagUnique(names: Names, cfg: Config, s: SessionRule, t: SessionRule)
    requires GoodIDs(names, cfg) && InGlobal(names, cfg, s) && InGlobal(names, cfg, t) && s.tag == t.tag
    ensures s == t
  {
    hide InGlobal, EgressOne;
    var n1, x := GlobalFrom(names, cfg, s);
    var n2, y := GlobalFrom(names, cfg, t);
    EgressTags(names, n1, cfg[n1].ip, x, s);
    EgressTags(names, n2, cfg[n2].ip, y, t);
    TagsTell(names, n1, true, x.id, s, n2, true, y.id, t);
    SameID(cfg[n1].egress, x, y);
    EgressTagsDiffer(names, n1, cfg[n1].ip, x, s, t);
  }

  lemma MixedTagsDiffer(names: Names, cfg: Config, s: SessionRule, ns: uint32, t: SessionRule)
    requires GoodIDs(names, cfg) && InGlobal(names, cfg, s) && InLocal(names, cfg, ns, t)
    ensures s.tag != t.tag
  {
    hide InGlobal, InLocal, EgressOne, IngressOne, LocalSource;
    var n1, x := GlobalFrom(names, cfg, s);
    var y := LocalFrom(names, cfg, ns, t);
    EgressTags(names, n1, cfg[n1].ip, x, s);
    IngressTags(names, ns, y, t);
    if s.tag == t.tag { TagsTell(names, n1, true, x.id, s, ns, false, y.id, t); }
  }

  /** The rules of all tables of a configuration have pairwise different tags. */
  lemma TableTagsUnique(names: Names, cfg: Config, t: Tables, x: SessionRule, y: SessionRule)
    requires GoodIDs(names, cfg) && IsTablesFor(names, cfg, t) && InTables(t, x) && InTables(t, y) && x.tag == y.tag
    ensures x == y
  {
    hide InLocal, InGlobal, Sorted, GoodIDs;
    if x in t.global && y in t.global {
      GlobalTagUnique(names, cfg, x, y);
    } else if x in t.global {
      var ns :| ns in t.local && y in t.local[ns];
      MixedTagsDiffer(names, cfg, x, ns, y);
    } else {
      var n1 :| n1 in t.local && x in t.local[n1];
      if y in t.global {
        MixedTagsDiffer(names, cfg, y, n1, x);
      } else {
        var n2 :| n2 in t.local && y in t.local[n2];
        LocalTagUnique(names, cfg, n1, x, n2, y);
      }
    }
  }

  // ----- Tables in memory -----

  class SessionTables {
    var global: SessionRuleList
    var local: map<uint32, SessionRuleList>   // namespace index -> rules

    ghost predicate Valid()
      reads this, global, local.Values
    {
      && global.Valid() && global.Compact()
      && (forall ns :: ns in local ==> local[ns].Valid() && local[ns].Compact() && local[ns] != global)
      && (forall a, b :: a in local && b in local && a != b ==> local[a] != local[b])
    }

    ghost function View(): Tables
      requires Valid()
      reads this, global, local.Values
    {
      Tables(global.Content(), map ns | ns in local :: local[ns].Content())
    }

    constructor ()
      ensures Valid() && View() == Tables([], map[])
      ensures fresh(global) && local == map[]
    {
      global := new SessionRuleList();
      local := map[];
    }
  }

  /** The list that a table lookup by namespace yields, without nil slots. */
  method AllRules(list: SessionRuleList) returns (rules: seq<SessionRule>)
    requires list.Valid() && list.Compact()
    ensures rules == list.Content()
  {
    rules := [];
    for i := 0 to |list.rules|
      invariant rules == list.Content()[..i]
    {
      rules := rules + [list.rules[i].value];
    }
  }

  // ----- Difference of tables -----

  ghost predicate NoDuplicates(s: seq<SessionRule>) {
    forall i, j :: 0 <= i < j < |s| ==> s[i] != s[j]
  }

  lemma {:induction false} MinusNothing(s: seq<SessionRule>)
    ensures Minus(s, []) == s
  {
    if s != [] { MinusNothing(s[..|s| - 1]); }
  }

  lemma {:induction false} MinusNoDuplicates(s: seq<SessionRule>, t: seq<SessionRule>)
    requires Sorted(s)
    ensures NoDuplicates(Minus(s, t))
  {
    hide CompareSession;
    if s != [] {
      var init, last := s[..|s| - 1], s[|s| - 1];
      MinusNoDuplicates(init, t);
      MinusMembers(init, t);
      forall x | x in init ensures x != last {
        var i :| 0 <= i < |init| && init[i] == x;
        SessionSymmetry(s[i], last);
        SessionSymmetry(last, last);
      }
    }
  }

  /** What the local tables visited so far contribute to the rules of t missing in u. */
  ghost predicate MissingIn(t: Tables, u: Tables, visited: set<uint32>, r: SessionRule) {
    || r in Minus(t.global, u.global)
    || (r.appnsIndex in visited && r in Minus(LocalOf(t, r.appnsIndex), LocalOf(u, r.appnsIndex)))
  }

  ghost predicate CollectedSoFar(t: Tables, u: Tables, visited: set<uint32>, rules: seq<SessionRule>) {
    NoDuplicates(rules) && forall r :: r in rules <==> MissingIn(t, u, visited, r)
  }

  lemma CollectGlobal(t: Tables, u: Tables)
    requires WellPlaced(t)
    ensures CollectedSoFar(t, u, {}, Minus(t.global, u.global))
  {
    hide Sorted;
    MinusNoDuplicates(t.global, u.global);
  }

  lemma CollectLocal(t: Tables, u: Tables, visited: set<uint32>, rules: seq<SessionRule>, ns: uint32)
    requires WellPlaced(t) && CollectedSoFar(t, u, visited, rules) && ns !in visited
    ensures CollectedSoFar(t, u, visited + {ns}, rules + Minus(LocalOf(t, ns), LocalOf(u, ns)))
  {
    hide Sorted, Minus, WellPlaced, NoDuplicates;
    var more := Minus(LocalOf(t, ns), LocalOf(u, ns));
    LocalSorted(t, ns);
    MinusNoDuplicates(LocalOf(t, ns), LocalOf(u, ns));
    MinusMembers(t.global, u.global);
    forall r ensures r in rules + more <==> MissingIn(t, u, visited + {ns}, r) {
      if r in more {
        MinusMembers(LocalOf(t, ns), LocalOf(u, ns));
        LocalPlace(t, ns, r);
      }
    }
    forall x | x in more ensures x !in rules {
      MinusMembers(LocalOf(t, ns), LocalOf(u, ns));
      LocalPlace(t, ns, x);
    }
    NoDuplicatesConcat(rules, more);
  }

  lemma NoDuplicatesConcat(s: seq<SessionRule>, t: seq<SessionRule>)
    requires NoDuplicates(s) && NoDuplicates(t) && forall x :: x in t ==> x !in s
    ensures NoDuplicates(s + t)
  {
    forall i, j | 0 <= i < j < |s + t| ensures (s + t)[i] != (s + t)[j] {
      if i < |s| <= j {
        assert t[j - |s|] in t;
      }
    }
  }

  lemma LocalPlace(t: Tables, ns: uint32, r: SessionRule)
    requires WellPlaced(t) && r in LocalOf(t, ns)
    ensures r.scope == RULE_SCOPE_LOCAL && r.appnsIndex == ns && r !in t.global
  {
  }

  lemma LocalSorted(t: Tables, ns: uint32)
    requires WellPlaced(t)
    ensures Sorted(LocalOf(t, ns))
  {
  }

  lemma CollectedAll(t: Tables, u: Tables, visited: set<uint32>, rules: seq<SessionRule>)
    requires WellPlaced(t) && WellPlaced(u) && CollectedSoFar(t, u, visited, rules)
    requires forall ns :: ns in t.local ==> ns in visited
    ensures NoDuplicates(rules)
    ensures forall r :: r in rules <==> InTables(t, r) && !InTables(u, r)
  {
    hide Sorted, Minus, InTables;
    forall r ensures MissingIn(t, u, visited, r) <==> InTables(t, r) && !InTables(u, r) {
      PlacedMember(t, r);
      PlacedMember(u, r);
      MinusMembers(t.global, u.global);
      MinusMembers(LocalOf(t, r.appnsIndex), LocalOf(u, r.appnsIndex));
      PlacedScope(t, r);
    }
  }

  lemma PlacedScope(t: Tables, r: SessionRule)
    requires WellPlaced(t)
    ensures r in t.global ==> r.scope != RULE_SCOPE_LOCAL
    ensures r in LocalOf(t, r.appnsIndex) ==> r.scope == RULE_SCOPE_LOCAL
  {
  }

  /** The difference of the local tables of one namespace; a missing table counts as empty. */
  method DiffNamespace(st: SessionTables, st2: SessionTables, ns: uint32) returns (added: seq<SessionRule>, removed: seq<SessionRule>)
    requires st.Valid() && st2.Valid() && (ns in st.local || ns in st2.local)
    ensures added == Minus(LocalOf(st.View(), ns), LocalOf(st2.View(), ns))
    ensures removed == Minus(LocalOf(st2.View(), ns), LocalOf(st.View(), ns))
  {
    hide Minus;
    if ns in st.local && ns in st2.local {
      added, removed := st.local[ns].Diff(st2.local[ns]);
    } else if ns in st.local {
      added := AllRules(st.local[ns]);
      removed := [];
      MinusNothing(added);
      EmptyMinus(added);
    } else {
      removed := AllRules(st2.local[ns]);
      added := [];
      MinusNothing(removed);
      EmptyMinus(removed);
    }
  }

  method DiffKnown(st: SessionTables, st2: SessionTables, added0: seq<SessionRule>, removed0: seq<SessionRule>)
    returns (added: seq<SessionRule>, removed: seq<SessionRule>)
    requires st.Valid() && st2.Valid() && WellPlaced(st.View()) && WellPlaced(st2.View())
    requires CollectedSoFar(st.View(), st2.View(), {}, added0) && CollectedSoFar(st2.View(), st.View(), {}, removed0)
    ensures CollectedSoFar(st.View(), st2.View(), st.local.Keys, added)
    ensures CollectedSoFar(st2.View(), st.View(), st.local.Keys, removed)
  {
    hide *;
    ghost var t, u := st.View(), st2.View();
    added, removed := added0, removed0;
    var todo := st.local.Keys;
    ghost var visited: set<uint32> := {};
    while todo != {}
      invariant visited == st.local.Keys - todo
      invariant CollectedSoFar(t, u, visited, added)
      invariant CollectedSoFar(u, t, visited, removed)
      decreases todo
    {
      var ns :| ns in todo;
      todo := todo - {ns};
      CollectLocal(t, u, visited, added, ns);
      CollectLocal(u, t, visited, removed, ns);
      var nsAdded, nsRemoved := DiffNamespace(st, st2, ns);
      added, removed, visited := added + nsAdded, removed + nsRemoved, visited + {ns};
    }
    assert visited == st.local.Keys;
  }

  method DiffUnknown(st: SessionTables, st2: SessionTables, removed0: seq<SessionRule>)
    returns (removed: seq<SessionRule>)
    requires st.Valid() && st2.Valid() && WellPlaced(st2.View())
    requires CollectedSoFar(st2.View(), st.View(), st.local.Keys, removed0)
    ensures CollectedSoFar(st2.View(), st.View(), st.local.Keys + st2.local.Keys, removed)
  {
    hide *;
    ghost var t, u := st.View(), st2.View();
    removed := removed0;
    var todo := st2.local.Keys;
    ghost var visited := st.local.Keys;
    while todo != {}
      invariant todo <= st2.local.Keys && visited == st.local.Keys + (st2.local.Keys - todo)
      invariant CollectedSoFar(u, t, visited, removed)
      decreases todo
    {
      var ns :| ns in todo;
      todo := todo - {ns};
      if ns !in st.local {
        CollectLocal(u, t, visited, removed, ns);
        var _, nsRemoved := DiffNamespace(st, st2, ns);
        removed, visited := removed + nsRemoved, visited + {ns};
      }
    }
    assert visited == st.local.Keys + st2.local.Keys;
  }

  method DiffGlobal(st: SessionTables, st2: SessionTables) returns (added: seq<SessionRule>, removed: seq<SessionRule>)
    requires st.Valid() && st2.Valid()
    ensures added == Minus(st.View().global, st2.View().global)
    ensures removed == Minus(st2.View().global, st.View().global)
  {
    hide Minus, Sorted, Values, Slots;
    added, removed := st.global.Diff(st2.global);
  }

  lemma ViewKeys(st: SessionTables)
    requires st.Valid()
    ensures st.View().local.Keys == st.local.Keys
  {
    hide Sorted, Values, Slots;
  }

  /** SessionTables.Diff: added is what these tables have and st2 lack, removed the converse,
      each rule once, in whatever order the namespaces are visited. */
  method DiffTables(st: SessionTables, st2: SessionTables) returns (added: seq<SessionRule>, removed: seq<SessionRule>)
    requires st.Valid() && st2.Valid() && WellPlaced(st.View()) && WellPlaced(st2.View())
    ensures NoDuplicates(added) && NoDuplicates(removed)
    ensures forall r :: r in added <==> InTables(st.View(), r) && !InTables(st2.View(), r)
    ensures forall r :: r in removed <==> InTables(st2.View(), r) && !InTables(st.View(), r)
  {
    hide *;
    ghost var t, u := st.View(), st2.View();
    added, removed := DiffGlobal(st, st2);
    CollectGlobal(t, u);
    CollectGlobal(u, t);
    added, removed := DiffKnown(st, st2, added, removed);
    ViewKeys(st);
    ViewKeys(st2);
    CollectedAll(t, u, st.local.Keys, added);
    removed := DiffUnknown(st, st2, removed);
    CollectedAll(u, t, st.local.Keys + st2.local.Keys, removed);
  }

  lemma EmptyMinus(t: seq<SessionRule>)
    ensures Minus([], t) == []
  {
  }

  // ----- Tables from dumped rules -----

  function Place(t: Tables, r: SessionRule): Tables {
    if r.scope == RULE_SCOPE_LOCAL
    then t.(local := t.local[r.appnsIndex := InsertOne(LocalOf(t, r.appnsIndex), r)])
    else t.(global := InsertOne(t.global, r))
  }

  function PlaceAll(rules: seq<SessionRule>): Tables {
    if rules == [] then Tables([], map[]) else Place(PlaceAll(rules[..|rules| - 1]), rules[|rules| - 1])
  }

  ghost predicate PresentIn(t: Tables, r: SessionRule) {
    exists x :: InTables(t, x) && EqualUpToTag(x, r)
  }

  lemma PlacePresent(t: Tables, r: SessionRule)
    requires WellPlaced(t)
    ensures PresentIn(t, r) <==> Present(if r.scope == RULE_SCOPE_LOCAL then LocalOf(t, r.appnsIndex) else t.global, r)
  {
    hide Sorted, InTables;
    var list := if r.scope == RULE_SCOPE_LOCAL then LocalOf(t, r.appnsIndex) else t.global;
    if PresentIn(t, r) {
      var x :| InTables(t, x) && EqualUpToTag(x, r);
      assert x.scope == r.scope && x.appnsIndex == r.appnsIndex;
      PlacedMember(t, x);
    }
    if Present(list, r) {
      var x :| x in list && EqualUpToTag(x, r);
      assert x.scope == r.scope && x.appnsIndex == r.appnsIndex;
      PlacedMember(t, x);
    }
  }

  lemma PlaceStays(t: Tables, r: SessionRule)
    requires WellPlaced(t)
    ensures WellPlaced(Place(t, r))
  {
    hide Sorted, InsertOne;
    LocalSorted(t, r.appnsIndex);
    if r.scope == RULE_SCOPE_LOCAL {
      InsertOneMembers(LocalOf(t, r.appnsIndex), r);
    } else {
      InsertOneMembers(t.global, r);
    }
  }

  lemma PlaceMembers(t: Tables, r: SessionRule, x: SessionRule)
    requires WellPlaced(t)
    ensures InTables(Place(t, r), x) <==> InTables(t, x) || (x == r && !PresentIn(t, r))
  {
    hide Sorted, InTables, InsertOne, Present, PresentIn, WellPlaced;
    PlaceStays(t, r);
    PlacedMember(Place(t, r), x);
    PlacedMember(t, x);
    PlacePresent(t, r);
    LocalSorted(t, r.appnsIndex);
    GlobalSortedIn(t);
    if r.scope == RULE_SCOPE_LOCAL {
      InsertOneMembers(LocalOf(t, r.appnsIndex), r);
    } else {
      InsertOneMembers(t.global, r);
    }
  }

  lemma GlobalSortedIn(t: Tables)
    requires WellPlaced(t)
    ensures Sorted(t.global)
  {
  }

  /** Tables filled from a dump hold the first rule of each class of rules equal up to the tag. */
  lemma {:induction false} PlaceAllMembers(rules: seq<SessionRule>)
    ensures WellPlaced(PlaceAll(rules))
    ensures forall x :: InTables(PlaceAll(rules), x) <==> IsFirst(rules, x)
  {
    hide Place, InTables, EqualUpToTag, WellPlaced;
    if rules == [] {
      EmptyTables();
    } else {
      var init, last := rules[..|rules| - 1], rules[|rules| - 1];
      PlaceAllMembers(init);
      PlaceStays(PlaceAll(init), last);
      PresentInFirsts(PlaceAll(init), init, last);
      forall x ensures InTables(PlaceAll(rules), x) <==> IsFirst(rules, x) {
        PlaceMembers(PlaceAll(init), last, x);
        FirstSnoc(init, last, x);
        assert rules == init + [last];
      }
    }
  }

  lemma EmptyTables()
    ensures WellPlaced(Tables([], map[])) && forall x :: !InTables(Tables([], map[]), x)
  {
  }

  lemma PresentInFirsts(t: Tables, rules: seq<SessionRule>, r: SessionRule)
    requires forall x :: InTables(t, x) <==> IsFirst(rules, x)
    ensures PresentIn(t, r) <==> Present(rules, r)
  {
    hide InTables, InsertAll;
    InsertAllPresent(rules, r);
    InsertAllMembers(rules);
    if PresentIn(t, r) {
      var x :| InTables(t, x) && EqualUpToTag(x, r);
      assert x in InsertAll([], rules);
    }
    if Present(rules, r) {
      var x :| x in InsertAll([], rules) && EqualUpToTag(x, r);
      assert InTables(t, x);
    }
  }

  lemma FirstSnoc(s: seq<SessionRule>, r: SessionRule, x: SessionRule)
    ensures IsFirst(s + [r], x) <==> IsFirst(s, x) || (x == r && !Present(s, r))
  {
    hide Present;
    var t := s + [r];
    if IsFirst(s, x) {
      var i :| 0 <= i < |s| && s[i] == x && !Present(s[..i], x);
      assert t[..i] == s[..i] && t[i] == x;
    }
    if x == r && !Present(s, r) {
      assert t[..|s|] == s && t[|s|] == x;
    }
    if IsFirst(t, x) {
      var i :| 0 <= i < |t| && t[i] == x && !Present(t[..i], x);
      assert i < |s| ==> t[..i] == s[..i];
      assert t[..|s|] == s;
    }
  }

  method InsertDumpedLocal(st: SessionTables, rule: SessionRule)
    requires st.Valid() && rule.scope == RULE_SCOPE_LOCAL && rule.appnsIndex in st.local
    modifies st.local.Values
    ensures st.Valid() && st.View() == Place(old(st.View()), rule)
  {
    hide Sorted, Values, Slots, InsertOne;
    ghost var before := st.View();
    var list := st.local[rule.appnsIndex];
    InsertSingle(list.Content(), rule);
    var _ := list.Insert([rule]);
    assert st.View().local == Place(before, rule).local;
  }

  method AddNamespace(st: SessionTables, ns: uint32)
    requires st.Valid() && ns !in st.local
    modifies st`local
    ensures st.Valid() && st.View() == old(st.View()).(local := old(st.View()).local[ns := []])
    ensures st.local.Keys == old(st.local.Keys) + {ns} && fresh(st.local[ns])
    ensures forall x :: x in old(st.local) ==> st.local[x] == old(st.local)[x]
  {
    hide Sorted, Values, Slots;
    ghost var before := st.View();
    var list := new SessionRuleList();
    st.local := st.local[ns := list];
    assert st.View().local == before.local[ns := []];
  }

  method InsertDumpedGlobal(st: SessionTables, rule: SessionRule)
    requires st.Valid() && rule.scope != RULE_SCOPE_LOCAL
    modifies st.global
    ensures st.Valid() && st.View() == Place(old(st.View()), rule)
  {
    hide Sorted, Values, Slots, InsertOne;
    ghost var before := st.View();
    InsertSingle(st.global.Content(), rule);
    var _ := st.global.Insert([rule]);
    assert st.View().local == before.local;
  }

  lemma PlaceInEmpty(t: Tables, r: SessionRule)
    requires r.scope == RULE_SCOPE_LOCAL && r.appnsIndex !in t.local
    ensures Place(t.(local := t.local[r.appnsIndex := []]), r) == Place(t, r)
  {
    hide InsertOne;
  }

  method InsertDumped(st: SessionTables, rule: SessionRule)
    requires st.Valid()
    modifies st`local, st.global, st.local.Values
    ensures st.Valid() && st.View() == Place(old(st.View()), rule)
    ensures st.global == old(st.global)
    ensures forall ns :: ns in st.local ==> (ns in old(st.local) && st.local[ns] == old(st.local)[ns]) || fresh(st.local[ns])
  {
    hide *;
    ghost var before := st.View();
    if rule.scope == RULE_SCOPE_LOCAL {
      if rule.appnsIndex !in st.local {
        ViewKeys(st);
        PlaceInEmpty(before, rule);
        AddNamespace(st, rule.appnsIndex);
      }
      InsertDumpedLocal(st, rule);
    } else {
      InsertDumpedGlobal(st, rule);
    }
  }

  lemma InsertSingle(s: seq<SessionRule>, r: SessionRule)
    ensures InsertAll(s, [r]) == InsertOne(s, r)
  {
    hide InsertOne;
    assert [r][..0] == [];
  }

  method TablesOfDump(dump: seq<SessionRule>) returns (st: SessionTables)
    ensures fresh(st) && st.Valid() && WellPlaced(st.View())
    ensures forall r :: InTables(st.View(), r) <==> IsFirst(dump, r)
  {
    hide WellPlaced, InTables, IsFirst, Place;
    st := new SessionTables();
    for i := 0 to |dump|
      invariant fresh(st) && fresh(st.global) && forall ns :: ns in st.local ==> fresh(st.local[ns])
      invariant st.Valid() && st.View() == PlaceAll(dump[..i])
    {
      assert dump[..i + 1][..i] == dump[..i];
      InsertDumped(st, dump[i]);
    }
    assert dump[..|dump|] == dump;
    PlaceAllMembers(dump);
  }

  // ----- Tables from a configuration -----

  method BuildGlobal(names: Names, cfg: Config) returns (global: SessionRuleList)
    requires DistinctIPs(cfg)
    ensures fresh(global) && global.Valid() && global.Compact()
    ensures IsGlobalTable(names, cfg, global.Content())
  {
    hide InsertAll, EgressOfAll, EgressRules, IsGlobalTable, SessionRuleList.Shape, Sorted, SessionRuleList.Content,
         SessionRuleList.Compact, DistinctIPs;
    global := new SessionRuleList();
    var todo := cfg.Keys;
    ghost var order: seq<uint32> := [];
    NothingVisited(names, cfg);
    while todo != {}
      invariant todo <= cfg.Keys && Visits(cfg, order)
      invariant forall ns :: ns in order <==> ns in cfg && ns !in todo
      invariant fresh(global) && global.Valid() && global.Compact()
      invariant global.Content() == InsertAll([], EgressOfAll(names, cfg, order))
      decreases todo
    {
      var ns :| ns in todo;
      todo := todo - {ns};
      var egressRules := ConvertEgressRules(names.tag, ns, cfg[ns].ip, cfg[ns].egress);
      VisitNext(names, cfg, order, ns);
      var _ := global.Insert(egressRules);
      order := order + [ns];
    }
    GlobalTableBuilt(names, cfg, order);
  }

  lemma NothingVisited(names: Names, cfg: Config)
    ensures Visits(cfg, []) && InsertAll([], EgressOfAll(names, cfg, [])) == []
  {
  }

  lemma VisitNext(names: Names, cfg: Config, order: seq<uint32>, ns: uint32)
    requires Visits(cfg, order) && ns in cfg && ns !in order
    ensures Visits(cfg, order + [ns])
    ensures InsertAll([], EgressOfAll(names, cfg, order + [ns])) ==
            InsertAll(InsertAll([], EgressOfAll(names, cfg, order)), EgressRules(names.tag, ns, cfg[ns].ip, cfg[ns].egress))
  {
    hide InsertAll, EgressRules;
    assert (order + [ns])[..|order|] == order;
    InsertAllConcat([], EgressOfAll(names, cfg, order), EgressRules(names.tag, ns, cfg[ns].ip, cfg[ns].egress));
  }

  method BuildLocal(names: Names, cfg: Config, ns: uint32) returns (list: SessionRuleList)
    requires DistinctIPs(cfg) && ns in cfg
    ensures fresh(list) && list.Valid() && list.Compact()
    ensures IsLocalTable(names, cfg, ns, list.Content())
  {
    hide Sorted, Values, Slots, InsertAll, IngressRules, IsLocalTable, IsCombined;
    list := new SessionRuleList();
    var ingress, added := GetCombinedIngressRules(names.combined, cfg, ns);
    var ingressRules := ConvertIngressRules(names.tag, ns, ingress);
    var _ := list.Insert(ingressRules);
    LocalTableBuilt(names, cfg, ns, ingress, added);
  }

  method BuildLocals(names: Names, cfg: Config) returns (local: map<uint32, SessionRuleList>)
    requires DistinctIPs(cfg)
    ensures local.Keys == cfg.Keys
    ensures forall ns :: ns in local ==>
              fresh(local[ns]) && local[ns].Valid() && local[ns].Compact() && IsLocalTable(names, cfg, ns, local[ns].Content())
    ensures forall a, b :: a in local && b in local && a != b ==> local[a] != local[b]
  {
    hide Sorted, Values, Slots, IsLocalTable, DistinctIPs;
    local := map[];
    var todo := cfg.Keys;
    while todo != {}
      invariant todo <= cfg.Keys && local.Keys == cfg.Keys - todo
      invariant forall ns :: ns in local ==>
                  fresh(local[ns]) && local[ns].Valid() && local[ns].Compact() && IsLocalTable(names, cfg, ns, local[ns].Content())
      invariant forall a, b :: a in local && b in local && a != b ==> local[a] != local[b]
      decreases todo
    {
      var ns :| ns in todo;
      todo := todo - {ns};
      var list := BuildLocal(names, cfg, ns);
      local := local[ns := list];
    }
  }

  // ----- Cache and transactions -----

  class SessionRuleCache {
    const names: Names
    var config: Config
    var tables: SessionTables

    constructor (names: Names)
      ensures this.names == names && config == map[]
      ensures fresh(tables) && fresh(tables.global) && tables.Valid() && tables.View() == Tables([], map[])
      ensures tables.local == map[]
    {
      this.names := names;
      config := map[];
      tables := new SessionTables();
    }
  }

  class SessionRuleCacheTxn {
    const cache: SessionRuleCache
    const resync: bool
    var config: Config
    var tables: SessionTables
    var upToDateTables: bool

    /** The tables of the transaction, once refreshed, are those of its configuration. */
    ghost predicate Valid()
      reads this, tables, tables.global, tables.local.Values
    {
      && tables.Valid()
      && (upToDateTables ==> IsTablesFor(cache.names, config, tables.View()))
    }

    /** NewTxn */
    constructor (cache: SessionRuleCache, resync: bool)
      ensures this.cache == cache && this.resync == resync && Valid() && !upToDateTables
      ensures config == if resync then map[] else cache.config
      ensures fresh(tables)
    {
      this.cache := cache;
      this.resync := resync;
      config := if resync then map[] else cache.config;
      tables := new SessionTables();
      upToDateTables := false;
    }

    method Update(ns: uint32, nsConfig: NamespaceConfig)
      requires Valid()
      modifies this`config, this`upToDateTables
      ensures Valid() && config == old(config)[ns := nsConfig] && !upToDateTables
    {
      config := config[ns := nsConfig];
      upToDateTables := false;
    }

    method RefreshTables()
      requires DistinctIPs(config)
      modifies this`upToDateTables, tables
      ensures Valid() && upToDateTables
    {
      hide Sorted, Values, Slots, IsLocalTable, IsGlobalTable, DistinctIPs;
      var global := BuildGlobal(cache.names, config);
      var local := BuildLocals(cache.names, config);
      tables.global, tables.local := global, local;
      upToDateTables := true;
    }

    /** What Changes compares the tables of the transaction with. */
    ghost predicate InBase(dump: seq<SessionRule>, r: SessionRule)
      requires !resync ==> cache.tables.Valid()
      reads cache, cache.tables, cache.tables.global, cache.tables.local.Values
    {
      if resync then IsFirst(dump, r) else InTables(cache.tables.View(), r)
    }

    /** The tables of the transaction, brought up to date if need be. */
    method BringUpToDate()
      requires Valid() && DistinctIPs(config)
      modifies this`upToDateTables, tables
      ensures Valid() && upToDateTables && WellPlaced(tables.View())
    {
      hide WellPlaced, IsTablesFor, Sorted, Slots, Values, DistinctIPs;
      if !upToDateTables {
        RefreshTables();
      }
      TablesForPlaced(cache.names, config, tables.View());
    }

    method DiffWith(current: SessionTables) returns (added: seq<SessionRule>, removed: seq<SessionRule>)
      requires tables.Valid() && WellPlaced(tables.View())
      requires current.Valid() && WellPlaced(current.View())
      ensures NoDuplicates(added) && NoDuplicates(removed)
      ensures forall r :: r in added <==> InTables(tables.View(), r) && !InTables(current.View(), r)
      ensures forall r :: r in removed <==> InTables(current.View(), r) && !InTables(tables.View(), r)
    {
      added, removed := DiffTables(tables, current);
    }

    /** Changes: the rules to add and to remove, compared with what the cache holds or, in a
        resync, with the dump of the rules installed by this renderer. */
    method Changes(dump: seq<SessionRule>) returns (added: seq<SessionRule>, removed: seq<SessionRule>)
      requires Valid() && DistinctIPs(config) && tables != cache.tables
      requires !resync ==> cache.tables.Valid() && WellPlaced(cache.tables.View())
      modifies this`upToDateTables, tables
      ensures Valid() && upToDateTables
      ensures NoDuplicates(added) && NoDuplicates(removed)
      ensures forall r :: r in added <==> InTables(tables.View(), r) && !InBase(dump, r)
      ensures forall r :: r in removed <==> InBase(dump, r) && !InTables(tables.View(), r)
    {
      hide WellPlaced, InTables, IsFirst, IsTablesFor, NoDuplicates, Sorted, Slots, Values, DistinctIPs,
           SessionTables.View, SessionTables.Valid;
      BringUpToDate();
      if resync {
        var currentTables := TablesOfDump(dump);
        added, removed := DiffWith(currentTables);
      } else {
        added, removed := DiffWith(cache.tables);
      }
    }

    method Commit()
      requires Valid() && DistinctIPs(config)
      modifies this`upToDateTables, tables, cache
      ensures cache.config == old(config) && cache.tables == tables && tables == old(tables)
      ensures tables.Valid() && IsTablesFor(cache.names, cache.config, tables.View())
    {
      hide IsTablesFor, DistinctIPs, SessionTables.Valid, SessionTables.View;
      if !upToDateTables {
        RefreshTables();
      }
      cache.config, cache.tables := config, tables;
    }
  }
}
