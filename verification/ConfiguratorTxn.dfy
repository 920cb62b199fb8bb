/** PolicyConfiguratorTxn.Commit (plugins/policy/configurator/configurator_impl.go): sorting
    of policy sets and the memo of sets that were already processed. */
module ConfiguratorTxn {
  import opened Base
  import opened Net
  import opened Rules
  import opened Policies
  import opened RuleIDs
  import opened Configurator
  import opened ConfiguratorMeaning
  import opened BlockCoverage

  // ----- Order of policies -----

  function ComparePolicyIDs(a: PolicyID, b: PolicyID): int {
    var ns := Lex(CharKey, a.namespace, b.namespace);
    if ns != 0 then ns else Lex(CharKey, a.name, b.name)
  }

  /** ContivPolicies.Less */
  predicate Less(a: ContivPolicy, b: ContivPolicy) {
    || Lex(CharKey, a.id.namespace, b.id.namespace) < 0
    || (a.id.namespace == b.id.namespace && Lex(CharKey, a.id.name, b.id.name) < 0)
  }

  /** ContivPolicies.Equals compares IDs only. */
  predicate Equals(a: seq<ContivPolicy>, b: seq<ContivPolicy>) {
    |a| == |b| && forall i :: 0 <= i < |a| ==> a[i].id == b[i].id
  }

  lemma LessOrder(a: ContivPolicy, b: ContivPolicy, c: ContivPolicy)
    ensures Less(a, b) <==> ComparePolicyIDs(a.id, b.id) < 0
    ensures Less(a, b) ==> !Less(b, a)
    ensures !Less(a, b) && !Less(b, a) <==> a.id == b.id
    ensures !Less(b, a) && !Less(c, b) ==> !Less(c, a)
  {
    KeysInjective();
    LexOrder(CharKey, a.id.namespace, b.id.namespace, c.id.namespace);
    LexOrder(CharKey, b.id.namespace, c.id.namespace, a.id.namespace);
    LexOrder(CharKey, c.id.namespace, a.id.namespace, b.id.namespace);
    LexOrder(CharKey, a.id.name, b.id.name, c.id.name);
    LexOrder(CharKey, b.id.name, c.id.name, a.id.name);
    LexOrder(CharKey, c.id.name, a.id.name, b.id.name);
  }

  predicate Sorted(ps: seq<ContivPolicy>) {
    forall i, j :: 0 <= i < j < |ps| ==> !Less(ps[j], ps[i])
  }

  /** Policies are uniquely identified by their IDs. */
  ghost predicate IdsDetermine(ps: set<ContivPolicy>) {
    forall a, b :: a in ps && b in ps && a.id == b.id ==> a == b
  }

  function Insert(p: ContivPolicy, ps: seq<ContivPolicy>): (r: seq<ContivPolicy>)
    requires Sorted(ps)
    ensures Sorted(r) && multiset(r) == multiset{p} + multiset(ps)
  {
    if ps == [] then [p]
    else if !Less(ps[0], p) then
      assert [p] + ps == [p] + ([ps[0]] + ps[1..]);
      assert Sorted([p] + ps) by {
        forall j | 0 <= j < |ps| ensures !Less(ps[j], p) {
          if j > 0 { LessOrder(p, ps[0], ps[j]); }
        }
      }
      [p] + ps
    else
      var rest := Insert(p, ps[1..]);
      assert ps == [ps[0]] + ps[1..];
      assert Sorted([ps[0]] + rest) by {
        forall j | 0 <= j < |rest| ensures !Less(rest[j], ps[0]) {
          LessOrder(ps[0], p, p);
          assert rest[j] in multiset(rest);
          assert rest[j] == p || rest[j] in ps[1..];
        }
      }
      [ps[0]] + rest
  }

  /** sort.Sort: any algorithm that sorts gives this list, see SortedUnique. */
  function SortPolicies(ps: seq<ContivPolicy>): (r: seq<ContivPolicy>)
    ensures Sorted(r) && multiset(r) == multiset(ps)
  {
    if ps == [] then []
    else
      assert ps == [ps[0]] + ps[1..];
      Insert(ps[0], SortPolicies(ps[1..]))
  }

  lemma SortedHead(all: set<ContivPolicy>, s: seq<ContivPolicy>, t: seq<ContivPolicy>)
    requires IdsDetermine(all) && forall p :: p in s ==> p in all
    requires Sorted(s) && Sorted(t) && multiset(s) == multiset(t) && s != [] && t != []
    ensures s[0] == t[0]
  {
    assert s[0] in multiset(t) && t[0] in multiset(s);
    var i :| 0 <= i < |t| && t[i] == s[0];
    var j :| 0 <= j < |s| && s[j] == t[0];
    LessOrder(s[0], t[0], t[0]);
    assert t[0] in s && s[0] in s;
  }

  /** Two sorted arrangements of the same policies are the same list. */
  lemma {:induction false} SortedUnique(all: set<ContivPolicy>, s: seq<ContivPolicy>, t: seq<ContivPolicy>)
    requires IdsDetermine(all) && forall p :: p in s ==> p in all
    requires Sorted(s) && Sorted(t) && multiset(s) == multiset(t)
    ensures s == t
  {
    hide Sorted, IdsDetermine;
    assert |multiset(s)| == |s| && |multiset(t)| == |t|;
    if s != [] {
      SortedHead(all, s, t);
      SortedTail(s);
      SortedTail(t);
      SortedUnique(all, s[1..], t[1..]);
      assert s == [s[0]] + s[1..] && t == [t[0]] + t[1..];
    }
  }

  lemma SortedTail(s: seq<ContivPolicy>)
    requires Sorted(s) && s != []
    ensures Sorted(s[1..]) && multiset(s[1..]) == multiset(s) - multiset{s[0]}
  {
    hide Less;
    assert s == [s[0]] + s[1..];
  }

  lemma SortMembers(ps: seq<ContivPolicy>)
    ensures forall p :: p in SortPolicies(ps) <==> p in ps
  {
    var s := SortPolicies(ps);
    assert forall p :: p in s <==> p in multiset(s);
    assert forall p :: p in ps <==> p in multiset(ps);
  }

  /** Sorted policies ascend by namespace, and by name within a namespace. */
  lemma SortAscends(ps: seq<ContivPolicy>, i: nat, j: nat)
    requires i < j < |SortPolicies(ps)|
    ensures var a, b := SortPolicies(ps)[i].id, SortPolicies(ps)[j].id;
            || Lex(CharKey, a.namespace, b.namespace) == -1
            || (a.namespace == b.namespace && Lex(CharKey, a.name, b.name) <= 0)
  {
    hide SortPolicies;
    var a, b := SortPolicies(ps)[i], SortPolicies(ps)[j];
    KeysInjective();
    LexOrder(CharKey, a.id.namespace, b.id.namespace, a.id.namespace);
    LexOrder(CharKey, a.id.name, b.id.name, a.id.name);
    LexSign(CharKey, a.id.namespace, b.id.namespace);
    assert !Less(b, a);
  }

  /** The same set of policies always results in the same list of rules, whatever the order
      in which the policies were given. */
  lemma SamePoliciesSameRules(text: NetText, cache: PodCache, dir: MatchType, ps: seq<ContivPolicy>, qs: seq<ContivPolicy>)
    requires multiset(ps) == multiset(qs) && IdsDetermine(set p | p in ps)
    ensures Generated(text, cache, dir, SortPolicies(ps)) == Generated(text, cache, dir, SortPolicies(qs))
  {
    SortMembers(ps);
    SortedUnique((set p | p in ps), SortPolicies(ps), SortPolicies(qs));
  }

  lemma SeenMembers(ps: seq<ContivPolicy>, x: ContivPolicy)
    ensures x in SeenPolicies(ps) <==> exists p :: p in ps && SeenPolicy(p) == x
  {
    hide SeenPolicy;
    if p :| p in ps && SeenPolicy(p) == x {
      var k :| 0 <= k < |ps| && ps[k] == p;
      assert SeenPolicies(ps)[k] == x;
    }
  }

  lemma SortedSeen(ps: seq<ContivPolicy>, x: ContivPolicy)
    ensures x in SeenPolicies(SortPolicies(ps)) <==> x in SeenPolicies(ps)
  {
    hide SeenPolicies, SeenPolicy, SortPolicies;
    SortMembers(ps);
    SeenMembers(SortPolicies(ps), x);
    SeenMembers(ps, x);
  }

  /** Whether IDs tell the rules apart does not depend on the order of the policies. */
  lemma SortedTold(text: NetText, cache: PodCache, dir: MatchType, ps: seq<ContivPolicy>)
    requires Told(text, cache, dir, ps)
    ensures Told(text, cache, dir, SortPolicies(ps))
  {
    hide SeenPolicies, SortPolicies, PolicyRules, FlatMap;
    var xs, ys := SeenPolicies(ps), SeenPolicies(SortPolicies(ps));
    forall r ensures r in Candidates(text, cache, dir, ys) ==> r in Candidates(text, cache, dir, xs) {
      FlatMapMember(PolicyRules(text, cache, dir), xs, r);
      FlatMapMember(PolicyRules(text, cache, dir), ys, r);
      if policy :| policy in ys && r in PolicyRules(text, cache, dir)(policy) {
        SortedSeen(ps, policy);
      }
    }
  }

  lemma SortedMeaning(cache: PodCache, dir: MatchType, ps: seq<ContivPolicy>, p: Packet)
    ensures Meaning(cache, dir, SeenPolicies(SortPolicies(ps)), p) == Meaning(cache, dir, SeenPolicies(ps), p)
  {
    hide SeenPolicies, SortPolicies, PolicyCovers, Applies;
    forall x ensures x in SeenPolicies(SortPolicies(ps)) <==> x in SeenPolicies(ps) {
      SortedSeen(ps, x);
    }
  }

  /** Sorting does not change what the generated rules mean, if IDs tell them apart; in any case they
      never permit more than the policies. */
  lemma SortingKeepsMeaning(text: NetText, cache: PodCache, dir: MatchType, ps: seq<ContivPolicy>, p: Packet)
    ensures var verdict := Evaluate(Generated(text, cache, dir, SortPolicies(ps)), p);
            && (Told(text, cache, dir, ps) ==> verdict == Meaning(cache, dir, SeenPolicies(ps), p))
            && (Told(text, cache, dir, ps) && PoliciesKept(ps) ==> verdict == Meaning(cache, dir, ps, p))
            && (Meaning(cache, dir, SeenPolicies(ps), p) == Denied ==> verdict == Denied)
  {
    hide SeenPolicies, SortPolicies, Intended, Evaluate, Told, PoliciesKept, Meaning;
    var s := SortPolicies(ps);
    SortedMeaning(cache, dir, ps, p);
    IntendedNeverMore(text, cache, dir, SeenPolicies(s), p);
    if Told(text, cache, dir, ps) {
      SortedTold(text, cache, dir, ps);
      GeneratedMeaning(text, cache, dir, s, p);
    }
    if PoliciesKept(ps) { KeptSeen(cache, dir, ps, p); }
  }

  // ----- Commit -----

  datatype Processed = Processed(policies: seq<ContivPolicy>, ingress: seq<Rule>, egress: seq<Rule>)

  /** What Render receives for a pod. */
  datatype Rendered = Rendered(podIP: Prefix, ingress: seq<Rule>, egress: seq<Rule>)

  type TxnConfig = map<PodID, seq<ContivPolicy>>

  predicate Renderable(cache: PodCache, pod: PodID) {
    pod in cache && cache[pod].HasAddress?
  }

  /** The direction in policies is from the pod's point of view, whereas rules are evaluated
      from the vswitch perspective. */
  function Rendering(text: NetText, cache: PodCache, pod: PodID, policies: seq<ContivPolicy>): Rendered
    requires Renderable(cache, pod)
  {
    Rendered(OneHost(cache[pod].ip),
             Generated(text, cache, MatchEgress, SortPolicies(policies)),
             Generated(text, cache, MatchIngress, SortPolicies(policies)))
  }

  /** The list decides every packet as the policies do in the direction, if IDs tell its rules apart;
      in any case it denies what they deny. */
  ghost predicate Enforces(text: NetText, cache: PodCache, dir: MatchType, policies: seq<ContivPolicy>, rules: seq<Rule>) {
    forall p: Packet ::
      && (Told(text, cache, dir, policies) ==> Evaluate(rules, p) == Meaning(cache, dir, SeenPolicies(policies), p))
      && (Told(text, cache, dir, policies) && PoliciesKept(policies) ==> Evaluate(rules, p) == Meaning(cache, dir, policies, p))
      && (Meaning(cache, dir, SeenPolicies(policies), p) == Denied ==> Evaluate(rules, p) == Denied)
  }

  lemma SortedEnforces(text: NetText, cache: PodCache, dir: MatchType, policies: seq<ContivPolicy>)
    ensures Enforces(text, cache, dir, policies, Generated(text, cache, dir, SortPolicies(policies)))
  {
    hide Generated, SeenPolicies, SortPolicies, Evaluate, Told, PoliciesKept, Meaning;
    var rules := Generated(text, cache, dir, SortPolicies(policies));
    forall p: Packet
      ensures Told(text, cache, dir, policies) ==> Evaluate(rules, p) == Meaning(cache, dir, SeenPolicies(policies), p)
      ensures Told(text, cache, dir, policies) && PoliciesKept(policies) ==> Evaluate(rules, p) == Meaning(cache, dir, policies, p)
      ensures Meaning(cache, dir, SeenPolicies(policies), p) == Denied ==> Evaluate(rules, p) == Denied
    {
      SortingKeepsMeaning(text, cache, dir, policies, p);
    }
  }

  lemma RenderingEnforces(text: NetText, cache: PodCache, pod: PodID, policies: seq<ContivPolicy>)
    requires Renderable(cache, pod)
    ensures var r := Rendering(text, cache, pod, policies);
            && (forall a: Bits :: Contains(r.podIP, a) <==> a == cache[pod].ip)
            && Enforces(text, cache, MatchIngress, policies, r.egress)
            && Enforces(text, cache, MatchEgress, policies, r.ingress)
  {
    hide Generated, SortPolicies, Enforces;
    SortedEnforces(text, cache, MatchIngress, policies);
    SortedEnforces(text, cache, MatchEgress, policies);
  }

  function AllPolicies(config: TxnConfig): set<ContivPolicy> {
    set pod, p | pod in config && p in config[pod] :: p
  }

  ghost predicate MemoValid(text: NetText, cache: PodCache, all: set<ContivPolicy>, processed: seq<Processed>) {
    forall i :: 0 <= i < |processed| ==>
      && (forall p :: p in processed[i].policies ==> p in all)
      && processed[i].ingress == Generated(text, cache, MatchEgress, processed[i].policies)
      && processed[i].egress == Generated(text, cache, MatchIngress, processed[i].policies)
  }

  lemma EqualsIsEquality(all: set<ContivPolicy>, a: seq<ContivPolicy>, b: seq<ContivPolicy>)
    requires IdsDetermine(all)
    requires forall p :: p in a || p in b ==> p in all
    ensures Equals(a, b) <==> a == b
  {
    if Equals(a, b) {
      forall i | 0 <= i < |a| ensures a[i] == b[i] {
        assert a[i] in a && b[i] in b;
      }
    }
  }

  method LookupMemo(text: NetText, processed: seq<Processed>, policies: seq<ContivPolicy>, ghost cache: PodCache, ghost all: set<ContivPolicy>)
    returns (found: bool, ingress: seq<Rule>, egress: seq<Rule>)
    requires MemoValid(text, cache, all, processed) && IdsDetermine(all)
    requires forall p :: p in policies ==> p in all
    ensures found <==> exists i :: 0 <= i < |processed| && processed[i].policies == policies
    ensures found ==> ingress == Generated(text, cache, MatchEgress, policies)
    ensures found ==> egress == Generated(text, cache, MatchIngress, policies)
  {
    hide Generated, IdsDetermine;
    found, ingress, egress := false, [], [];
    for i := 0 to |processed|
      invariant found <==> exists k :: 0 <= k < i && processed[k].policies == policies
      invariant found ==> ingress == Generated(text, cache, MatchEgress, policies)
      invariant found ==> egress == Generated(text, cache, MatchIngress, policies)
    {
      EqualsIsEquality(all, processed[i].policies, policies);
      if Equals(processed[i].policies, policies) {
        found, ingress, egress := true, processed[i].ingress, processed[i].egress;
      }
    }
  }

  method RenderPod(text: NetText, cache: PodCache, pod: PodID, unordered: seq<ContivPolicy>, memo: seq<Processed>, ghost all: set<ContivPolicy>)
    returns (result: Rendered, processed: seq<Processed>)
    requires Renderable(cache, pod)
    requires MemoValid(text, cache, all, memo) && IdsDetermine(all)
    requires forall p :: p in unordered ==> p in all
    ensures result == Rendering(text, cache, pod, unordered)
    ensures MemoValid(text, cache, all, processed)
  {
    processed := memo;
    var podIP := OneHost(cache[pod].ip);
    var policies := SortPolicies(unordered);
    SortMembers(unordered);
    var found, ingress, egress := LookupMemo(text, processed, policies, cache, all);
    if !found {
      egress := GenerateRules(text, cache, MatchIngress, policies);
      ingress := GenerateRules(text, cache, MatchEgress, policies);
      processed := processed + [Processed(policies, ingress, egress)];
    }
    result := Rendered(podIP, ingress, egress);
  }

  /** Commit renders every pod with a usable address exactly once, with the rules that
      generateRules gives for its own sorted policies, in whatever order the pods are
      visited and whichever results come from the memo.  The egress rules, which the vswitch applies
      to what it sends to the pod, enforce the ingress direction of the policies, and the ingress
      rules the egress direction. */
  method Commit(text: NetText, cache: PodCache, config: TxnConfig) returns (started: bool, rendered: map<PodID, Rendered>)
    requires IdsDetermine(AllPolicies(config))
    ensures started <==> rendered.Keys != {}
    ensures rendered.Keys == set pod | pod in config && Renderable(cache, pod)
    ensures forall pod :: pod in rendered ==> rendered[pod] == Rendering(text, cache, pod, config[pod])
    ensures forall pod :: pod in rendered ==>
              && (forall a: Bits :: Contains(rendered[pod].podIP, a) <==> a == cache[pod].ip)
              && Enforces(text, cache, MatchIngress, config[pod], rendered[pod].egress)
              && Enforces(text, cache, MatchEgress, config[pod], rendered[pod].ingress)
  {
    hide Rendering, Generated, Enforces, Contains;
    started, rendered := false, map[];
    var processed: seq<Processed> := [];
    ghost var all := AllPolicies(config);
    var todo := config.Keys;
    while todo != {}
      invariant todo <= config.Keys
      invariant MemoValid(text, cache, all, processed)
      invariant forall pod :: pod in rendered <==> pod in config && pod !in todo && Renderable(cache, pod)
      invariant forall pod :: pod in rendered ==> rendered[pod] == Rendering(text, cache, pod, config[pod])
      invariant started <==> rendered.Keys != {}
      decreases todo
    {
      var pod :| pod in todo;
      todo := todo - {pod};
      if pod !in cache { continue; }
      if cache[pod] == NoAddress { continue; }
      if cache[pod] == BadAddress { continue; }
      var result: Rendered;
      result, processed := RenderPod(text, cache, pod, config[pod], processed, all);
      started := true;
      rendered := rendered[pod := result];
      assert pod in rendered.Keys;
    }
    forall pod | pod in rendered { RenderingEnforces(text, cache, pod, config[pod]); }
  }
}
