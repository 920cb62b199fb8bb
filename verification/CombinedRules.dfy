/** getCombinedIngressRules (plugins/policy/renderer/vpptcp/cache/cache_impl.go): the egress
    rules of every pod on the host are folded into the ingress rules of each other pod, because
    the stack looks at one table only for connections inside the host. */
module CombinedRules {
  import opened Base
  import opened Net
  import opened Rules

  datatype NamespaceConfig = NamespaceConfig(ip: Address, ingress: seq<Rule>, egress: seq<Rule>)

  type Config = map<uint32, NamespaceConfig>

  /** The parts of the ID of a combined rule; port None is the deny-the-rest rule. */
  datatype CombinedID = CombinedID(ns: uint32, rmtNs: uint32, proto: Protocol, port: Option<uint16>)

  type Naming = CombinedID -> string

  // ----- Sets of ports -----

  type Ports = set<uint16>

  const ANY_PORT: uint16 := 0

  predicate Has(p: Ports, port: uint16) {
    ANY_PORT in p || port in p
  }

  function Intersected(p: Ports, p2: Ports): Ports {
    if ANY_PORT in p then p2 else if ANY_PORT in p2 then p else p * p2
  }

  predicate Within(p: Ports, p2: Ports) {
    ANY_PORT in p2 || (ANY_PORT !in p && p <= p2)
  }

  method IsSubsetOf(p: Ports, p2: Ports) returns (subset: bool)
    ensures subset <==> Within(p, p2)
    ensures subset <==> forall port :: Has(p, port) ==> Has(p2, port)
  {
    assert Has(p, ANY_PORT) <==> ANY_PORT in p;
    if Has(p2, ANY_PORT) { return true; }
    if Has(p, ANY_PORT) { return false; }
    var todo := p;
    while todo != {}
      invariant todo <= p && forall port :: port in p && port !in todo ==> port in p2
      decreases todo
    {
      var port :| port in todo;
      todo := todo - {port};
      if !Has(p2, port) { return false; }
    }
    return true;
  }

  method Intersection(p: Ports, p2: Ports) returns (r: Ports)
    ensures r == Intersected(p, p2)
    ensures forall port :: Has(r, port) <==> Has(p, port) && Has(p2, port)
  {
    if Has(p, ANY_PORT) { return p2; }
    if Has(p2, ANY_PORT) { return p; }
    r := {};
    var todo := p;
    while todo != {}
      invariant todo <= p && forall port :: port in r <==> port in p && port !in todo && port in p2
      decreases todo
    {
      var port :| port in todo;
      todo := todo - {port};
      if Has(p2, port) { r := r + {port}; }
    }
  }

  // ----- Permissions of one rule list -----

  predicate HasDeny(rules: seq<Rule>) {
    exists i :: 0 <= i < |rules| && rules[i].action == ActionDeny
  }

  /** The network of a rule that the address of the opposite pod is matched against. */
  function Opposite(egress: bool, r: Rule): Network {
    if egress then r.src else r.dest
  }

  predicate AllowsFor(egress: bool, r: Rule, a: Bits, proto: Protocol) {
    r.action == ActionPermit && MatchesNet(Opposite(egress, r), a) && r.proto == proto
  }

  /** Destination ports that the permit rules of a list open for an address. */
  function AllowedPorts(egress: bool, a: Bits, rules: seq<Rule>, proto: Protocol): Ports {
    set r | r in rules && AllowsFor(egress, r, a, proto) :: r.destPort
  }

  /** getAllowedEgressPorts and getAllowedIngressPorts */
  method GetAllowedPorts(egress: bool, a: Address, rules: seq<Rule>) returns (tcp: Ports, udp: Ports)
    ensures tcp == AllowedPorts(egress, a, rules, TCP)
    ensures udp == AllowedPorts(egress, a, rules, UDP)
  {
    tcp, udp := {}, {};
    for i := 0 to |rules|
      invariant tcp == AllowedPorts(egress, a, rules[..i], TCP)
      invariant udp == AllowedPorts(egress, a, rules[..i], UDP)
    {
      var rule := rules[i];
      assert rules[..i + 1] == rules[..i] + [rule];
      if rule.action == ActionDeny { continue; }
      var net := Opposite(egress, rule);
      if net.Subnet? && !Contains(net, a) { continue; }
      if rule.proto == TCP {
        tcp := tcp + {rule.destPort};
      } else {
        udp := udp + {rule.destPort};
      }
    }
    assert rules[..|rules|] == rules;
  }

  method FindDeny(rules: seq<Rule>) returns (hasDeny: bool)
    ensures hasDeny <==> HasDeny(rules)
  {
    hasDeny := false;
    for i := 0 to |rules|
      invariant !hasDeny && !HasDeny(rules[..i])
    {
      if rules[i].action == ActionDeny {
        hasDeny := true;
        break;
      }
    }
    assert !hasDeny ==> rules[..|rules|] == rules;
  }

  // ----- Specification of the combined list -----

  /** Namespaces already folded in, for each protocol. */
  datatype Done = Done(tcp: set<uint32>, udp: set<uint32>) {
    function Of(proto: Protocol): set<uint32> { if proto == TCP then tcp else udp }
  }

  function InPorts(cfg: Config, ns: uint32, rmt: uint32, proto: Protocol): Ports
    requires ns in cfg && rmt in cfg
  {
    if HasDeny(cfg[ns].ingress) then AllowedPorts(false, cfg[rmt].ip, cfg[ns].ingress, proto) else {ANY_PORT}
  }

  function EgPorts(cfg: Config, ns: uint32, rmt: uint32, proto: Protocol): Ports
    requires ns in cfg && rmt in cfg
  {
    AllowedPorts(true, cfg[ns].ip, cfg[rmt].egress, proto)
  }

  /** The egress rules of rmt take something away from what ns may access in rmt. */
  predicate Restricted(cfg: Config, ns: uint32, rmt: uint32, proto: Protocol) {
    && ns in cfg && rmt in cfg && rmt != ns
    && HasDeny(cfg[rmt].egress)
    && !Within(InPorts(cfg, ns, rmt, proto), EgPorts(cfg, ns, rmt, proto))
  }

  function OpenPorts(cfg: Config, ns: uint32, rmt: uint32, proto: Protocol): Ports
    requires ns in cfg && rmt in cfg
  {
    Intersected(InPorts(cfg, ns, rmt, proto), EgPorts(cfg, ns, rmt, proto))
  }

  function PermitPort(name: Naming, cfg: Config, ns: uint32, rmt: uint32, proto: Protocol, port: uint16): Rule
    requires rmt in cfg
  {
    ContivRule(name(CombinedID(ns, rmt, proto, Some(port))), ActionPermit, AnyNet, OneHost(cfg[rmt].ip), proto, 0, port)
  }

  function DenyRest(name: Naming, cfg: Config, ns: uint32, rmt: uint32, proto: Protocol): Rule
    requires rmt in cfg
  {
    ContivRule(name(CombinedID(ns, rmt, proto, None)), ActionDeny, AnyNet, OneHost(cfg[rmt].ip), proto, 0, 0)
  }

  predicate IsHostRule(r: Rule, proto: Protocol, ip: Bits) {
    r.proto == proto && r.dest.Subnet? && r.dest.plen == |r.dest.ip| && r.dest.ip == ip
  }

  /** Rules of the original list that are cleaned up before explicit ones are added. */
  predicate IsDropped(cfg: Config, ns: uint32, done: Done, r: Rule) {
    exists rmt :: rmt in done.Of(r.proto) && Restricted(cfg, ns, rmt, r.proto) && IsHostRule(r, r.proto, cfg[rmt].ip)
  }

  function Kept(cfg: Config, ns: uint32, done: Done, rules: seq<Rule>): seq<Rule> {
    if rules == [] then []
    else
      var last := rules[|rules| - 1];
      Kept(cfg, ns, done, rules[..|rules| - 1]) + (if IsDropped(cfg, ns, done, last) then [] else [last])
  }

  predicate IsRuleFor(name: Naming, cfg: Config, ns: uint32, rmt: uint32, proto: Protocol, r: Rule)
    requires ns in cfg && rmt in cfg
  {
    || r == DenyRest(name, cfg, ns, rmt, proto)
    || (r.destPort in OpenPorts(cfg, ns, rmt, proto) && r == PermitPort(name, cfg, ns, rmt, proto, r.destPort))
  }

  predicate IsNew(name: Naming, cfg: Config, ns: uint32, done: Done, r: Rule) {
    exists rmt :: rmt in done.Of(r.proto) && Restricted(cfg, ns, rmt, r.proto) && IsRuleFor(name, cfg, ns, rmt, r.proto, r)
  }

  ghost predicate IsCombinedSoFar(name: Naming, cfg: Config, ns: uint32, done: Done, rules: seq<Rule>, added: seq<Rule>) {
    && ns in cfg
    && rules == Kept(cfg, ns, done, cfg[ns].ingress) + added
    && forall r :: r in added <==> IsNew(name, cfg, ns, done, r)
  }

  function AllDone(cfg: Config): Done {
    Done(cfg.Keys, cfg.Keys)
  }

  /** What getCombinedIngressRules returns, up to the order of the added rules, which follows
      the iteration order of maps. */
  ghost predicate IsCombined(name: Naming, cfg: Config, ns: uint32, rules: seq<Rule>, added: seq<Rule>) {
    IsCombinedSoFar(name, cfg, ns, AllDone(cfg), rules, added)
  }

  predicate DistinctIPs(cfg: Config) {
    forall a, b :: a in cfg && b in cfg && a != b ==> cfg[a].ip != cfg[b].ip
  }

  ghost predicate Combines(name: Naming, cfg: Config, ns: uint32, rules: seq<Rule>)
    requires ns in cfg
  {
    exists added :: IsCombined(name, cfg, ns, rules, added)
  }

  // ----- Implementation -----

  function WithoutHost(rules: seq<Rule>, proto: Protocol, ip: Bits): seq<Rule> {
    if rules == [] then []
    else
      var last := rules[|rules| - 1];
      WithoutHost(rules[..|rules| - 1], proto, ip) + (if IsHostRule(last, proto, ip) then [] else [last])
  }

  method CleanupSubtree(rules: seq<Rule>, proto: Protocol, ip: Address) returns (filtered: seq<Rule>)
    ensures filtered == WithoutHost(rules, proto, ip)
  {
    filtered := [];
    for i := 0 to |rules|
      invariant filtered == WithoutHost(rules[..i], proto, ip)
    {
      var rule := rules[i];
      assert rules[..i + 1][..i] == rules[..i];
      if rule.proto != proto || rule.dest.AnyNet? {
        filtered := filtered + [rule];
        continue;
      }
      if rule.dest.plen != |rule.dest.ip| || rule.dest.ip != ip {
        filtered := filtered + [rule];
        continue;
      }
    }
    assert rules[..|rules|] == rules;
  }

  lemma WithoutHostSnoc(rules: seq<Rule>, r: Rule, proto: Protocol, ip: Bits)
    ensures WithoutHost(rules + [r], proto, ip) == WithoutHost(rules, proto, ip) + if IsHostRule(r, proto, ip) then [] else [r]
  {
    hide IsHostRule;
    assert (rules + [r])[..|rules|] == rules;
  }

  lemma {:induction false} WithoutHostConcat(a: seq<Rule>, b: seq<Rule>, proto: Protocol, ip: Bits)
    requires forall r :: r in b ==> !IsHostRule(r, proto, ip)
    ensures WithoutHost(a + b, proto, ip) == WithoutHost(a, proto, ip) + b
  {
    hide IsHostRule, WithoutHost;
    if b == [] {
      assert a + b == a;
    } else {
      var init, last := b[..|b| - 1], b[|b| - 1];
      WithoutHostConcat(a, init, proto, ip);
      WithoutHostSnoc(a + init, last, proto, ip);
      assert b == init + [last] && a + b == a + init + [last];
    }
  }

  function Extend(done: Done, rmt: uint32, proto: Protocol): Done {
    if proto == TCP then done.(tcp := done.tcp + {rmt}) else done.(udp := done.udp + {rmt})
  }

  lemma DroppedExtend(cfg: Config, ns: uint32, done: Done, rmt: uint32, proto: Protocol, r: Rule)
    requires rmt in cfg
    ensures IsDropped(cfg, ns, Extend(done, rmt, proto), r) <==>
            IsDropped(cfg, ns, done, r) || (Restricted(cfg, ns, rmt, proto) && IsHostRule(r, proto, cfg[rmt].ip))
  {
    var next := Extend(done, rmt, proto);
    if IsDropped(cfg, ns, done, r) {
      var x :| x in done.Of(r.proto) && Restricted(cfg, ns, x, r.proto) && IsHostRule(r, r.proto, cfg[x].ip);
      assert x in next.Of(r.proto);
    }
    if Restricted(cfg, ns, rmt, proto) && IsHostRule(r, proto, cfg[rmt].ip) {
      assert rmt in next.Of(r.proto);
    }
  }

  lemma {:induction false} KeptExtend(cfg: Config, ns: uint32, done: Done, rmt: uint32, proto: Protocol, rules: seq<Rule>)
    requires rmt in cfg
    ensures Kept(cfg, ns, Extend(done, rmt, proto), rules) ==
            if Restricted(cfg, ns, rmt, proto) then WithoutHost(Kept(cfg, ns, done, rules), proto, cfg[rmt].ip)
            else Kept(cfg, ns, done, rules)
  {
    if rules != [] {
      var init, last := rules[..|rules| - 1], rules[|rules| - 1];
      KeptExtend(cfg, ns, done, rmt, proto, init);
      DroppedExtend(cfg, ns, done, rmt, proto, last);
      var kept := Kept(cfg, ns, done, init);
      if IsDropped(cfg, ns, done, last) {
        assert Kept(cfg, ns, done, rules) == kept;
      } else {
        assert (kept + [last])[..|kept + [last]| - 1] == kept;
      }
    }
  }

  lemma NewExtend(name: Naming, cfg: Config, ns: uint32, done: Done, rmt: uint32, proto: Protocol, r: Rule)
    requires ns in cfg && rmt in cfg
    ensures IsNew(name, cfg, ns, Extend(done, rmt, proto), r) <==>
            || IsNew(name, cfg, ns, done, r)
            || (Restricted(cfg, ns, rmt, proto) && IsRuleFor(name, cfg, ns, rmt, proto, r))
  {
    var next := Extend(done, rmt, proto);
    if IsNew(name, cfg, ns, done, r) {
      var x :| x in done.Of(r.proto) && Restricted(cfg, ns, x, r.proto) && IsRuleFor(name, cfg, ns, x, r.proto, r);
      assert x in next.Of(r.proto);
    }
    if Restricted(cfg, ns, rmt, proto) && IsRuleFor(name, cfg, ns, rmt, proto, r) {
      assert rmt in next.Of(r.proto);
    }
  }

  /** Rules added for other namespaces survive the cleanup for this one. */
  lemma NewNotHost(name: Naming, cfg: Config, ns: uint32, done: Done, rmt: uint32, proto: Protocol, r: Rule)
    requires DistinctIPs(cfg) && ns in cfg && rmt in cfg && rmt !in done.Of(proto)
    requires IsNew(name, cfg, ns, done, r)
    ensures !IsHostRule(r, proto, cfg[rmt].ip)
  {
    var x :| x in done.Of(r.proto) && Restricted(cfg, ns, x, r.proto) && IsRuleFor(name, cfg, ns, x, r.proto, r);
    if r.proto == proto {
      assert x != rmt && r.dest.ip == cfg[x].ip;
    }
  }

  /** Explicit rules for the open ports, then the deny-the-rest rule. */
  method AppendHostRules(name: Naming, cfg: Config, ns: uint32, rmt: uint32, proto: Protocol, allowed: Ports, rules: seq<Rule>)
    returns (result: seq<Rule>, ghost more: seq<Rule>)
    requires ns in cfg && rmt in cfg && allowed == OpenPorts(cfg, ns, rmt, proto)
    ensures result == rules + more
    ensures forall r :: r in more <==> IsRuleFor(name, cfg, ns, rmt, proto, r)
  {
    result, more := rules, [];
    var todo := allowed;
    while todo != {}
      invariant todo <= allowed
      invariant result == rules + more
      invariant forall r :: r in more <==> r.destPort in allowed - todo && r == PermitPort(name, cfg, ns, rmt, proto, r.destPort)
      decreases todo
    {
      var port :| port in todo;
      todo := todo - {port};
      var newRule := PermitPort(name, cfg, ns, rmt, proto, port);
      result := result + [newRule];
      more := more + [newRule];
    }
    var denyRule := DenyRest(name, cfg, ns, rmt, proto);
    result := result + [denyRule];
    more := more + [denyRule];
  }

  lemma NewAppended(name: Naming, cfg: Config, ns: uint32, rmt: uint32, proto: Protocol, done: Done, added: seq<Rule>, more: seq<Rule>)
    requires Restricted(cfg, ns, rmt, proto)
    requires forall r :: r in added <==> IsNew(name, cfg, ns, done, r)
    requires forall r :: r in more <==> IsRuleFor(name, cfg, ns, rmt, proto, r)
    ensures forall r :: r in added + more <==> IsNew(name, cfg, ns, Extend(done, rmt, proto), r)
  {
    forall r ensures r in added + more <==> IsNew(name, cfg, ns, Extend(done, rmt, proto), r) {
      NewExtend(name, cfg, ns, done, rmt, proto, r);
    }
  }

  lemma FoldStep(name: Naming, cfg: Config, ns: uint32, rmt: uint32, proto: Protocol, done: Done,
                 rules: seq<Rule>, added: seq<Rule>, more: seq<Rule>)
    requires DistinctIPs(cfg) && Restricted(cfg, ns, rmt, proto) && rmt !in done.Of(proto)
    requires IsCombinedSoFar(name, cfg, ns, done, rules, added)
    requires forall r :: r in more <==> IsRuleFor(name, cfg, ns, rmt, proto, r)
    ensures IsCombinedSoFar(name, cfg, ns, Extend(done, rmt, proto), WithoutHost(rules, proto, cfg[rmt].ip) + more, added + more)
  {
    hide Kept, IsNew, IsRuleFor, WithoutHost, IsHostRule, Extend;
    var kept := Kept(cfg, ns, done, cfg[ns].ingress);
    KeptExtend(cfg, ns, done, rmt, proto, cfg[ns].ingress);
    forall r | r in added ensures !IsHostRule(r, proto, cfg[rmt].ip) {
      NewNotHost(name, cfg, ns, done, rmt, proto, r);
    }
    WithoutHostConcat(kept, added, proto, cfg[rmt].ip);
    NewAppended(name, cfg, ns, rmt, proto, done, added, more);
    var without := WithoutHost(kept, proto, cfg[rmt].ip);
    assert (without + added) + more == without + (added + more);
  }

  /** One "intersect ports" step of the loop over the other namespaces. */
  method Fold(name: Naming, cfg: Config, ns: uint32, rmt: uint32, proto: Protocol, inPorts: Ports, egPorts: Ports,
              rules: seq<Rule>, ghost done: Done, ghost added: seq<Rule>)
    returns (result: seq<Rule>, ghost added': seq<Rule>)
    requires DistinctIPs(cfg) && ns in cfg && rmt in cfg && rmt != ns && rmt !in done.Of(proto)
    requires HasDeny(cfg[rmt].egress)
    requires inPorts == InPorts(cfg, ns, rmt, proto) && egPorts == EgPorts(cfg, ns, rmt, proto)
    requires IsCombinedSoFar(name, cfg, ns, done, rules, added)
    ensures IsCombinedSoFar(name, cfg, ns, Extend(done, rmt, proto), result, added')
  {
    result, added' := rules, added;
    var subset := IsSubsetOf(inPorts, egPorts);
    if subset {
      SkipRemote(name, cfg, ns, done, rmt, proto, rules, added);
    } else {
      var allowed := Intersection(inPorts, egPorts);
      result := CleanupSubtree(result, proto, cfg[rmt].ip);
      ghost var more;
      result, more := AppendHostRules(name, cfg, ns, rmt, proto, allowed, result);
      FoldStep(name, cfg, ns, rmt, proto, done, rules, added, more);
      added' := added + more;
    }
  }

  lemma SkipRemote(name: Naming, cfg: Config, ns: uint32, done: Done, rmt: uint32, proto: Protocol, rules: seq<Rule>, added: seq<Rule>)
    requires rmt in cfg && !Restricted(cfg, ns, rmt, proto)
    requires IsCombinedSoFar(name, cfg, ns, done, rules, added)
    ensures IsCombinedSoFar(name, cfg, ns, Extend(done, rmt, proto), rules, added)
  {
    KeptExtend(cfg, ns, done, rmt, proto, cfg[ns].ingress);
    forall r ensures IsNew(name, cfg, ns, Extend(done, rmt, proto), r) <==> IsNew(name, cfg, ns, done, r) {
      NewExtend(name, cfg, ns, done, rmt, proto, r);
    }
  }

  lemma {:induction false} KeptNothingDone(cfg: Config, ns: uint32, rules: seq<Rule>)
    ensures Kept(cfg, ns, Done({}, {}), rules) == rules
  {
    hide IsDropped;
    if rules != [] {
      KeptNothingDone(cfg, ns, rules[..|rules| - 1]);
      NothingDropped(cfg, ns, rules[|rules| - 1]);
      assert rules == rules[..|rules| - 1] + [rules[|rules| - 1]];
    }
  }

  lemma NothingDropped(cfg: Config, ns: uint32, r: Rule)
    ensures !IsDropped(cfg, ns, Done({}, {}), r)
  {
  }

  /** getCombinedIngressRules, visiting the other namespaces and the ports in any order. */
  method GetCombinedIngressRules(name: Naming, cfg: Config, ns: uint32) returns (rules: seq<Rule>, ghost added: seq<Rule>)
    requires DistinctIPs(cfg) && ns in cfg
    ensures IsCombined(name, cfg, ns, rules, added) && Combines(name, cfg, ns, rules)
  {
    rules, added := cfg[ns].ingress, [];
    KeptNothingDone(cfg, ns, rules);
    var hasDeny := FindDeny(rules);
    var todo := cfg.Keys;
    ghost var done := Done({}, {});
    while todo != {}
      invariant todo <= cfg.Keys
      invariant done == Done(cfg.Keys - todo, cfg.Keys - todo)
      invariant IsCombinedSoFar(name, cfg, ns, done, rules, added)
      decreases todo
    {
      var rmt :| rmt in todo;
      todo := todo - {rmt};
      ghost var done1 := Extend(done, rmt, TCP);
      ghost var done2 := Extend(done1, rmt, UDP);
      assert done2 == Done(cfg.Keys - todo, cfg.Keys - todo);
      if rmt == ns {
        SkipRemote(name, cfg, ns, done, rmt, TCP, rules, added);
        SkipRemote(name, cfg, ns, done1, rmt, UDP, rules, added);
        done := done2;
        continue;
      }
      var rmtHasDeny := FindDeny(cfg[rmt].egress);
      if !rmtHasDeny {
        SkipRemote(name, cfg, ns, done, rmt, TCP, rules, added);
        SkipRemote(name, cfg, ns, done1, rmt, UDP, rules, added);
        done := done2;
        continue;
      }
      var egTCP, egUDP := GetAllowedPorts(true, cfg[ns].ip, cfg[rmt].egress);
      var inTCP: Ports, inUDP: Ports := {ANY_PORT}, {ANY_PORT};
      if hasDeny {
        inTCP, inUDP := GetAllowedPorts(false, cfg[rmt].ip, cfg[ns].ingress);
      }
      rules, added := Fold(name, cfg, ns, rmt, TCP, inTCP, egTCP, rules, done, added);
      rules, added := Fold(name, cfg, ns, rmt, UDP, inUDP, egUDP, rules, done1, added);
      done := done2;
    }
    assert done == AllDone(cfg);
    assert IsCombined(name, cfg, ns, rules, added);
  }
}
