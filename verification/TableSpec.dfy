/** The content of the session tables as a function of the configuration alone
    (refreshTables in plugins/policy/renderer/vpptcp/cache/cache_impl.go): whatever the
    iteration order of maps, the sorted tables are the same, tags included. */
module TableSpec {
  import opened Base
  import opened Net
  import opened Rules
  import opened SessionRules
  import opened CombinedRules
  import opened Conversion

  /** How IDs of combined rules are printed and how tags are hashed. */
  datatype Names = Names(combined: Naming, tag: Tagging)

  function KeptAll(cfg: Config, ns: uint32): seq<Rule>
    requires ns in cfg
  {
    Kept(cfg, ns, AllDone(cfg), cfg[ns].ingress)
  }

  ghost predicate IsNewSession(names: Names, cfg: Config, ns: uint32, s: SessionRule) {
    exists r :: IsNew(names.combined, cfg, ns, AllDone(cfg), r) && s in IngressOne(names.tag, ns, r)
  }

  ghost predicate InLocal(names: Names, cfg: Config, ns: uint32, s: SessionRule) {
    ns in cfg && (IsFirst(IngressRules(names.tag, ns, KeptAll(cfg, ns)), s) || IsNewSession(names, cfg, ns, s))
  }

  ghost predicate InGlobal(names: Names, cfg: Config, s: SessionRule) {
    exists ns :: ns in cfg && IsFirst(EgressRules(names.tag, ns, cfg[ns].ip, cfg[ns].egress), s)
  }

  ghost predicate IsLocalTable(names: Names, cfg: Config, ns: uint32, table: seq<SessionRule>) {
    Sorted(table) && forall s :: s in table <==> InLocal(names, cfg, ns, s)
  }

  ghost predicate IsGlobalTable(names: Names, cfg: Config, table: seq<SessionRule>) {
    Sorted(table) && forall s :: s in table <==> InGlobal(names, cfg, s)
  }

  /** The tables of a configuration are unique. */
  lemma TablesUnique(names: Names, cfg: Config, ns: uint32, s: seq<SessionRule>, t: seq<SessionRule>)
    ensures IsLocalTable(names, cfg, ns, s) && IsLocalTable(names, cfg, ns, t) ==> s == t
    ensures IsGlobalTable(names, cfg, s) && IsGlobalTable(names, cfg, t) ==> s == t
  {
    hide InLocal, InGlobal, Sorted;
    if IsLocalTable(names, cfg, ns, s) && IsLocalTable(names, cfg, ns, t) {
      SortedUnique(s, t);
    }
    if IsGlobalTable(names, cfg, s) && IsGlobalTable(names, cfg, t) {
      SortedUnique(s, t);
    }
  }

  // ----- First rules of a concatenation -----

  lemma {:induction false} FirstIndex(y: seq<SessionRule>, s: SessionRule) returns (j: nat)
    requires s in y
    ensures j < |y| && y[j] == s && s !in y[..j]
  {
    if y[0] == s {
      j := 0;
    } else {
      assert y == [y[0]] + y[1..];
      j := FirstIndex(y[1..], s);
      j := j + 1;
      assert y[..j] == [y[0]] + y[1..][..j - 1];
    }
  }

  ghost predicate NoTwins(x: seq<SessionRule>, y: seq<SessionRule>) {
    forall a, b :: a in x && b in y ==> !EqualUpToTag(a, b)
  }

  ghost predicate TwinsEqual(y: seq<SessionRule>) {
    forall a, b :: a in y && b in y && EqualUpToTag(a, b) ==> a == b
  }

  lemma FirstLeft(x: seq<SessionRule>, y: seq<SessionRule>, s: SessionRule)
    requires IsFirst(x, s)
    ensures IsFirst(x + y, s)
  {
    var i :| 0 <= i < |x| && x[i] == s && !Present(x[..i], s);
    assert (x + y)[..i] == x[..i] && (x + y)[i] == s;
  }

  lemma FirstRight(x: seq<SessionRule>, y: seq<SessionRule>, s: SessionRule)
    requires NoTwins(x, y) && IsFirst(y, s)
    ensures IsFirst(x + y, s)
  {
    hide EqualUpToTag;
    var i :| 0 <= i < |y| && y[i] == s && !Present(y[..i], s);
    var k := |x| + i;
    assert (x + y)[k] == s && (x + y)[..k] == x + y[..i];
    assert s in y;
    assert !Present(x + y[..i], s);
  }

  lemma FirstConcat(x: seq<SessionRule>, y: seq<SessionRule>, s: SessionRule)
    requires NoTwins(x, y)
    ensures IsFirst(x + y, s) <==> IsFirst(x, s) || IsFirst(y, s)
  {
    hide EqualUpToTag, Present, NoTwins;
    if IsFirst(x, s) { FirstLeft(x, y, s); }
    if IsFirst(y, s) { FirstRight(x, y, s); }
    if IsFirst(x + y, s) {
      var i :| 0 <= i < |x + y| && (x + y)[i] == s && !Present((x + y)[..i], s);
      FirstOfEither(x, y, s, i);
    }
  }

  lemma FirstOfEither(x: seq<SessionRule>, y: seq<SessionRule>, s: SessionRule, i: nat)
    requires i < |x + y| && (x + y)[i] == s && !Present((x + y)[..i], s)
    ensures IsFirst(x, s) || IsFirst(y, s)
  {
    hide EqualUpToTag;
    if i < |x| {
      assert (x + y)[..i] == x[..i];
      assert x[i] == s;
    } else {
      var k := i - |x|;
      assert (x + y)[..i] == x + y[..k];
      PresentLater(x, y[..k], s);
      assert y[k] == s;
    }
  }

  lemma PresentLater(x: seq<SessionRule>, y: seq<SessionRule>, s: SessionRule)
    ensures Present(y, s) ==> Present(x + y, s)
  {
    hide EqualUpToTag;
  }

  lemma FirstOfDistinct(y: seq<SessionRule>, s: SessionRule)
    requires TwinsEqual(y)
    ensures IsFirst(y, s) <==> s in y
  {
    if s in y {
      var j := FirstIndex(y, s);
      assert !Present(y[..j], s);
    }
  }

  // ----- Local tables -----

  predicate IsHostNet(n: IPNet) {
    n.Subnet? && n.plen == |n.ip| && IsAddress(n.ip)
  }

  /** Only a rule for the same host converts into a twin of a rule for a host. */
  lemma IngressTwin(tag: Tagging, ns: uint32, r1: Rule, r2: Rule, s1: SessionRule, s2: SessionRule)
    requires s1 in IngressOne(tag, ns, r1) && s2 in IngressOne(tag, ns, r2)
    requires IsHostNet(r2.dest)
    ensures EqualUpToTag(s1, s2) ==>
            r1.dest == r2.dest && r1.proto == r2.proto && r1.destPort == r2.destPort && r1.action == r2.action
  {
    assert s2.rmtPlen == r2.dest.plen >= 32;
    assert r1.dest.AnyNet? ==> s1.rmtPlen == 1;
    if r1.dest.Subnet? && |r1.dest.ip| == |r2.dest.ip| && s1.rmtIP == s2.rmtIP {
      RawInjective(r1.dest.ip, r2.dest.ip);
    }
  }

  lemma NewRuleHost(name: Naming, cfg: Config, ns: uint32, r: Rule) returns (rmt: uint32)
    requires IsNew(name, cfg, ns, AllDone(cfg), r)
    ensures Restricted(cfg, ns, rmt, r.proto) && IsRuleFor(name, cfg, ns, rmt, r.proto, r)
    ensures rmt in AllDone(cfg).Of(r.proto) && r.dest == OneHost(cfg[rmt].ip)
  {
    rmt :| rmt in AllDone(cfg).Of(r.proto) && Restricted(cfg, ns, rmt, r.proto) && IsRuleFor(name, cfg, ns, rmt, r.proto, r);
  }

  lemma {:induction false} KeptOnlyUndropped(cfg: Config, ns: uint32, done: Done, rules: seq<Rule>, r: Rule)
    requires r in Kept(cfg, ns, done, rules)
    ensures !IsDropped(cfg, ns, done, r)
  {
    if r in Kept(cfg, ns, done, rules[..|rules| - 1]) {
      KeptOnlyUndropped(cfg, ns, done, rules[..|rules| - 1], r);
    }
  }

  lemma KeptAndNewNoTwins(names: Names, cfg: Config, ns: uint32, k: Rule, r: Rule, s: SessionRule, t: SessionRule)
    requires ns in cfg && k in KeptAll(cfg, ns) && IsNew(names.combined, cfg, ns, AllDone(cfg), r)
    requires s in IngressOne(names.tag, ns, k) && t in IngressOne(names.tag, ns, r)
    ensures !EqualUpToTag(s, t)
  {
    var rmt := NewRuleHost(names.combined, cfg, ns, r);
    KeptOnlyUndropped(cfg, ns, AllDone(cfg), cfg[ns].ingress, k);
    assert !IsHostRule(k, k.proto, cfg[rmt].ip) || k.proto != r.proto;
    IngressTwin(names.tag, ns, k, r, s, t);
  }

  lemma NewTwinsEqual(names: Names, cfg: Config, ns: uint32, r1: Rule, r2: Rule, s: SessionRule, t: SessionRule)
    requires DistinctIPs(cfg)
    requires IsNew(names.combined, cfg, ns, AllDone(cfg), r1) && IsNew(names.combined, cfg, ns, AllDone(cfg), r2)
    requires s in IngressOne(names.tag, ns, r1) && t in IngressOne(names.tag, ns, r2) && EqualUpToTag(s, t)
    ensures s == t
  {
    var rmt1 := NewRuleHost(names.combined, cfg, ns, r1);
    var rmt2 := NewRuleHost(names.combined, cfg, ns, r2);
    IngressTwin(names.tag, ns, r1, r2, s, t);
    assert rmt1 == rmt2;
    assert r1 == r2;
    assert |IngressOne(names.tag, ns, r1)| == 1;
  }

  lemma AddedSessions(names: Names, cfg: Config, ns: uint32, rules: seq<Rule>, added: seq<Rule>)
    requires DistinctIPs(cfg) && IsCombined(names.combined, cfg, ns, rules, added)
    ensures forall s :: s in IngressRules(names.tag, ns, added) <==> IsNewSession(names, cfg, ns, s)
    ensures NoTwins(IngressRules(names.tag, ns, KeptAll(cfg, ns)), IngressRules(names.tag, ns, added))
    ensures TwinsEqual(IngressRules(names.tag, ns, added))
  {
    var f := IngressOf(names.tag, ns);
    var x, y := IngressRules(names.tag, ns, KeptAll(cfg, ns)), IngressRules(names.tag, ns, added);
    forall s ensures s in y <==> IsNewSession(names, cfg, ns, s) {
      FlatMapMember(f, added, s);
    }
    forall s, t | s in x && t in y ensures !EqualUpToTag(s, t) {
      FlatMapMember(f, KeptAll(cfg, ns), s);
      FlatMapMember(f, added, t);
      var k :| k in KeptAll(cfg, ns) && s in f(k);
      var r :| r in added && t in f(r);
      KeptAndNewNoTwins(names, cfg, ns, k, r, s, t);
    }
    forall s, t | s in y && t in y && EqualUpToTag(s, t) ensures s == t {
      FlatMapMember(f, added, s);
      FlatMapMember(f, added, t);
      var r1 :| r1 in added && s in f(r1);
      var r2 :| r2 in added && t in f(r2);
      NewTwinsEqual(names, cfg, ns, r1, r2, s, t);
    }
  }

  /** Inserting the converted combined rules of a namespace, in any order in which they may
      have been generated, builds the one local table of the configuration. */
  lemma LocalTableBuilt(names: Names, cfg: Config, ns: uint32, rules: seq<Rule>, added: seq<Rule>)
    requires DistinctIPs(cfg) && IsCombined(names.combined, cfg, ns, rules, added)
    ensures IsLocalTable(names, cfg, ns, InsertAll([], IngressRules(names.tag, ns, rules)))
  {
    hide IsFirst, InsertAll, Sorted;
    var x, y := IngressRules(names.tag, ns, KeptAll(cfg, ns)), IngressRules(names.tag, ns, added);
    AddedSessions(names, cfg, ns, rules, added);
    FlatMapConcat(IngressOf(names.tag, ns), KeptAll(cfg, ns), added);
    InsertAllMembers(x + y);
    forall s ensures IsFirst(x + y, s) <==> InLocal(names, cfg, ns, s) {
      FirstConcat(x, y, s);
      FirstOfDistinct(y, s);
    }
  }

  // ----- Global table -----

  lemma EgressTwin(tag: Tagging, ns1: uint32, ip1: Address, r1: Rule, ns2: uint32, ip2: Address, r2: Rule, s1: SessionRule, s2: SessionRule)
    requires s1 in EgressOne(tag, ns1, ip1, r1) && s2 in EgressOne(tag, ns2, ip2, r2)
    ensures EqualUpToTag(s1, s2) ==> ip1 == ip2
  {
    assert |ip1| == 32 ==> RawV4(ip1)[..32] == ip1 && Raw16(ip1)[96..] == ip1;
    assert |ip2| == 32 ==> RawV4(ip2)[..32] == ip2 && Raw16(ip2)[96..] == ip2;
    assert s1.lclPlen == |ip1| && s2.lclPlen == |ip2|;
  }

  lemma EgressNoTwins(names: Names, cfg: Config, a: uint32, b: uint32)
    requires DistinctIPs(cfg) && a in cfg && b in cfg && a != b
    ensures NoTwins(EgressRules(names.tag, a, cfg[a].ip, cfg[a].egress), EgressRules(names.tag, b, cfg[b].ip, cfg[b].egress))
  {
    var f, g := EgressOf(names.tag, a, cfg[a].ip), EgressOf(names.tag, b, cfg[b].ip);
    forall s, t | s in FlatMap(f, cfg[a].egress) && t in FlatMap(g, cfg[b].egress) ensures !EqualUpToTag(s, t) {
      FlatMapMember(f, cfg[a].egress, s);
      FlatMapMember(g, cfg[b].egress, t);
      var r1 :| r1 in cfg[a].egress && s in f(r1);
      var r2 :| r2 in cfg[b].egress && t in g(r2);
      EgressTwin(names.tag, a, cfg[a].ip, r1, b, cfg[b].ip, r2, s, t);
    }
  }

  /** The session rules of the namespaces visited so far, in the order of the visits. */
  function EgressOfAll(names: Names, cfg: Config, order: seq<uint32>): seq<SessionRule>
    requires forall i :: 0 <= i < |order| ==> order[i] in cfg
  {
    if order == [] then []
    else
      var ns := order[|order| - 1];
      EgressOfAll(names, cfg, order[..|order| - 1]) + EgressRules(names.tag, ns, cfg[ns].ip, cfg[ns].egress)
  }

  ghost predicate Visits(cfg: Config, order: seq<uint32>) {
    && (forall i :: 0 <= i < |order| ==> order[i] in cfg)
    && (forall i, j :: 0 <= i < j < |order| ==> order[i] != order[j])
  }

  lemma {:induction false} EgressOfAllNoTwins(names: Names, cfg: Config, order: seq<uint32>, b: uint32)
    requires DistinctIPs(cfg) && Visits(cfg, order) && b in cfg && b !in order
    ensures NoTwins(EgressOfAll(names, cfg, order), EgressRules(names.tag, b, cfg[b].ip, cfg[b].egress))
  {
    hide EgressRules, EqualUpToTag;
    if order != [] {
      EgressOfAllNoTwins(names, cfg, order[..|order| - 1], b);
      EgressNoTwins(names, cfg, order[|order| - 1], b);
    }
  }

  lemma {:induction false} EgressOfAllFirsts(names: Names, cfg: Config, order: seq<uint32>, s: SessionRule)
    requires DistinctIPs(cfg) && Visits(cfg, order)
    ensures IsFirst(EgressOfAll(names, cfg, order), s) <==>
            exists ns :: ns in order && IsFirst(EgressRules(names.tag, ns, cfg[ns].ip, cfg[ns].egress), s)
  {
    hide EgressRules, EqualUpToTag;
    if order != [] {
      var init, last := order[..|order| - 1], order[|order| - 1];
      EgressOfAllFirsts(names, cfg, init, s);
      EgressOfAllNoTwins(names, cfg, init, last);
      FirstConcat(EgressOfAll(names, cfg, init), EgressRules(names.tag, last, cfg[last].ip, cfg[last].egress), s);
      assert order == init + [last];
    }
  }

  /** Whatever the order in which the namespaces are visited, their egress rules build the one
      global table of the configuration. */
  lemma GlobalTableBuilt(names: Names, cfg: Config, order: seq<uint32>)
    requires DistinctIPs(cfg) && Visits(cfg, order) && forall ns :: ns in cfg ==> ns in order
    ensures IsGlobalTable(names, cfg, InsertAll([], EgressOfAll(names, cfg, order)))
  {
    hide IsFirst, InsertAll, Sorted;
    InsertAllMembers(EgressOfAll(names, cfg, order));
    forall s ensures IsFirst(EgressOfAll(names, cfg, order), s) <==> InGlobal(names, cfg, s) {
      EgressOfAllFirsts(names, cfg, order, s);
    }
  }

  // ----- Two pods with one address -----

  /** If two namespaces have the same address and the same rule, up to its ID, the session rule that is
      installed for it carries the tag of the namespace that is visited first. */
  lemma SharedAddress(names: Names, cfg: Config, a: uint32, b: uint32)
    requires a in cfg && b in cfg && a != b && cfg[a].ip == cfg[b].ip
    requires |cfg[a].egress| == |cfg[b].egress| == 1 && cfg[a].egress[0].(id := "") == cfg[b].egress[0].(id := "")
    requires !IsAllowAll(true, cfg[a].egress[0]) && forall k, l :: names.tag(k) == names.tag(l) ==> k == l
    ensures InsertAll([], EgressOfAll(names, cfg, [a, b])) != InsertAll([], EgressOfAll(names, cfg, [b, a]))
  {
    hide InsertAll, Sorted, EqualUpToTag;
    var x, y := EgressOne(names.tag, a, cfg[a].ip, cfg[a].egress[0]), EgressOne(names.tag, b, cfg[b].ip, cfg[b].egress[0]);
    OneEgress(names, cfg, a, b);
    OneEgress(names, cfg, b, a);
    SharedTwins(names, cfg, a, b);
    InsertAllMembers(x + y);
    InsertAllMembers(y + x);
    assert IsFirst(x + y, x[0]) by { assert (x + y)[0] == x[0] && (x + y)[..0] == []; }
    assert !IsFirst(y + x, x[0]) by {
      forall i | 0 <= i < |y + x| && (y + x)[i] == x[0] ensures Present((y + x)[..i], x[0]) {
        assert i >= |y| && (y + x)[..i][0] == y[0];
      }
    }
  }

  lemma OneEgress(names: Names, cfg: Config, a: uint32, b: uint32)
    requires a in cfg && b in cfg && |cfg[a].egress| == |cfg[b].egress| == 1
    ensures EgressOfAll(names, cfg, [a, b]) ==
            EgressOne(names.tag, a, cfg[a].ip, cfg[a].egress[0]) + EgressOne(names.tag, b, cfg[b].ip, cfg[b].egress[0])
  {
    hide EgressOne, FlatMap;
    var none: seq<uint32> := [];
    assert [a, b][..1] == [a] && [a][..0] == none;
    assert EgressOfAll(names, cfg, none) == [];
    assert cfg[a].egress == [cfg[a].egress[0]] && cfg[b].egress == [cfg[b].egress[0]];
    FlatMapOne(EgressOf(names.tag, a, cfg[a].ip), cfg[a].egress[0]);
    FlatMapOne(EgressOf(names.tag, b, cfg[b].ip), cfg[b].egress[0]);
    assert EgressOfAll(names, cfg, [a]) == EgressRules(names.tag, a, cfg[a].ip, cfg[a].egress);
  }

  /** The session rules of the two namespaces differ in nothing but their tags. */
  lemma SharedTwins(names: Names, cfg: Config, a: uint32, b: uint32)
    requires a in cfg && b in cfg && a != b && cfg[a].ip == cfg[b].ip
    requires |cfg[a].egress| == |cfg[b].egress| == 1 && cfg[a].egress[0].(id := "") == cfg[b].egress[0].(id := "")
    requires !IsAllowAll(true, cfg[a].egress[0]) && forall k, l :: names.tag(k) == names.tag(l) ==> k == l
    ensures var x := EgressOne(names.tag, a, cfg[a].ip, cfg[a].egress[0]);
            var y := EgressOne(names.tag, b, cfg[b].ip, cfg[b].egress[0]);
            && x != [] && y != [] && EqualUpToTag(y[0], x[0]) && x[0] !in y
  {
    var x := EgressOne(names.tag, a, cfg[a].ip, cfg[a].egress[0]);
    var y := EgressOne(names.tag, b, cfg[b].ip, cfg[b].egress[0]);
    forall k | 0 <= k < |y| ensures y[k].tag != x[0].tag {
    }
  }

  lemma {:induction false} InsertAllConcat(s: seq<SessionRule>, a: seq<SessionRule>, b: seq<SessionRule>)
    ensures InsertAll(InsertAll(s, a), b) == InsertAll(s, a + b)
  {
    if b == [] {
      assert a + b == a;
    } else {
      InsertAllConcat(s, a, b[..|b| - 1]);
      assert (a + b)[..|a + b| - 1] == a + b[..|b| - 1];
      assert (a + b)[|a + b| - 1] == b[|b| - 1];
    }
  }
}
