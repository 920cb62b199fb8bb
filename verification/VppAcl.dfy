/** ACLs of the VPP agent, and the translation of Contiv rules into them and back
    (plugins/policy/renderer/acl/acl_renderer.go). */
module VppAcl {
  import opened Base
  import opened Net
  import opened Rules

  /** A slice of rules; None is nil, which compares as different from the empty slice. */
  type Slice = Option<seq<Rule>>

  datatype AclAction = DENY | PERMIT | REFLECT

  /** A network printed as text: absent, an address with a prefix length, or something that
      net.ParseCIDR rejects. */
  datatype NetText = Blank | CIDR(ip: Address, plen: nat) | Malformed

  datatype PortRange = PortRange(lower: uint32, upper: uint32)

  datatype Ports = Ports(source: Option<PortRange>, destination: Option<PortRange>)

  datatype L4 = Tcp(ports: Ports) | Udp(ports: Ports) | IcmpOrOther

  datatype IpNets = IpNets(source: NetText, destination: NetText)

  datatype IpRule = IpRule(ip: Option<IpNets>, l4: L4)

  /** matches is None without 'Matches'; its value is None for a MAC-IP rule. */
  datatype AclRule = AclRule(name: string, action: Option<AclAction>, matches: Option<Option<IpRule>>)

  const MAX_PORT: uint16 := 0xFFFF

  // ----- Rendering -----

  /** len(network.IP) > 0 decides whether anything is printed. */
  function RenderNet(n: Network): NetText {
    if n.AnyNet? then Blank else CIDR(n.ip, n.plen)
  }

  function RenderPort(port: uint16): PortRange {
    PortRange(port, if port == 0 then MAX_PORT else port)
  }

  function RenderRule(r: Rule): AclRule {
    var ports := Ports(Some(RenderPort(r.srcPort)), Some(RenderPort(r.destPort)));
    AclRule(r.id, Some(if r.action == ActionDeny then DENY else REFLECT),
            Some(Some(IpRule(Some(IpNets(RenderNet(r.src), RenderNet(r.dest))),
                             if r.proto == TCP then Tcp(ports) else Udp(ports)))))
  }

  function RenderAll(rules: seq<Rule>): (acl: seq<AclRule>)
    ensures |acl| == |rules|
  {
    seq(|rules|, k requires 0 <= k < |rules| => RenderRule(rules[k]))
  }

  /** The loop of renderACL. */
  method RenderRules(rules: Slice) returns (acl: seq<AclRule>)
    ensures acl == RenderAll(if rules.Some? then rules.value else [])
  {
    acl := [];
    var all := if rules.Some? then rules.value else [];
    for k := 0 to |all|
      invariant acl == RenderAll(all[..k])
    {
      acl := acl + [RenderRule(all[k])];
    }
    assert all[..|all|] == all;
  }

  // ----- Dumping -----

  /** net.ParseCIDR clears the bits past the prefix. */
  function ParseNet(text: NetText): Option<Network> {
    match text
    case Blank => Some(AnyNet)
    case CIDR(ip, plen) => if plen <= |ip| then Some(Subnet(Mask(ip, plen), plen)) else None
    case Malformed => None
  }

  /** A single port or the full range; nil is port 0. */
  function ParsePort(range: Option<PortRange>): Option<uint16> {
    if range.None? then Some(0)
    else if range.value.lower != range.value.upper && (range.value.lower != 0 || range.value.upper != MAX_PORT) then None
    else Some(range.value.lower % 0x1_0000)
  }

  /** None if the dump skips the rule. */
  function DumpRule(a: AclRule): Option<Rule> {
    if a.action.None? || a.action.value == PERMIT then None
    else if a.matches.None? || a.matches.value.None? then None
    else
      var ip := a.matches.value.value.ip;
      var l4 := a.matches.value.value.l4;
      var src := if ip.Some? then ParseNet(ip.value.source) else Some(AnyNet);
      var dest := if ip.Some? then ParseNet(ip.value.destination) else Some(AnyNet);
      if src.None? || dest.None? || l4.IcmpOrOther? then None
      else
        var srcPort := ParsePort(l4.ports.source);
        var destPort := ParsePort(l4.ports.destination);
        if srcPort.None? || destPort.None? then None
        else Some(ContivRule(a.name, if a.action.value == DENY then ActionDeny else ActionPermit,
                             src.value, dest.value, if l4.Tcp? then TCP else UDP, srcPort.value, destPort.value))
  }

  function DumpOne(a: AclRule): seq<Rule> {
    if DumpRule(a).Some? then [DumpRule(a).value] else []
  }

  function DumpAll(acl: seq<AclRule>): seq<Rule> {
    FlatMap(DumpOne, acl)
  }

  /** The inner loop of dumpVppACLConfig. */
  method DumpRules(acl: seq<AclRule>) returns (rules: seq<Rule>)
    ensures rules == DumpAll(acl)
  {
    rules := [];
    for k := 0 to |acl|
      invariant rules == DumpAll(acl[..k])
    {
      FlatMapSnoc(DumpOne, acl, k);
      var rule := DumpRule(acl[k]);
      if rule.None? {
        continue;
      }
      rules := rules + [rule.value];
    }
    assert acl[..|acl|] == acl;
  }

  // ----- Round trip -----

  predicate CanonicalNet(n: Network) {
    n.AnyNet? || Canonical(n)
  }

  predicate CanonicalRule(r: Rule) {
    CanonicalNet(r.src) && CanonicalNet(r.dest)
  }

  ghost predicate CanonicalRules(rules: seq<Rule>) {
    forall r :: r in rules ==> CanonicalRule(r)
  }

  /** A rendered rule is dumped back unchanged exactly if its networks have no bits set past
      their prefixes. */
  lemma DumpRendered(r: Rule)
    ensures DumpRule(RenderRule(r)).Some?
    ensures DumpRule(RenderRule(r)) == Some(r) <==> CanonicalRule(r)
  {
  }

  lemma {:induction false} DumpRenderedAll(rules: seq<Rule>)
    requires CanonicalRules(rules)
    ensures DumpAll(RenderAll(rules)) == rules
  {
    if rules == [] {
      FlatMapEmpty(DumpOne, RenderAll(rules));
    } else {
      var init, last := rules[..|rules| - 1], rules[|rules| - 1];
      assert rules == init + [last];
      DumpRenderedAll(init);
      DumpRendered(last);
      assert RenderAll(rules)[..|init|] == RenderAll(init);
      FlatMapSnoc(DumpOne, RenderAll(rules), |init|);
      assert RenderAll(rules)[..|rules|] == RenderAll(rules);
    }
  }

  /** The rule is one that the renderer produces. */
  predicate Renders(a: AclRule) {
    DumpRule(a).Some? && RenderRule(DumpRule(a).value) == a
  }

  /** What is dumped is rendered as it was exactly if every rule is one that the renderer
      produces; in particular none is skipped. */
  lemma RoundTripIff(acl: seq<AclRule>)
    ensures RenderAll(DumpAll(acl)) == acl <==> forall k :: 0 <= k < |acl| ==> Renders(acl[k])
  {
    RoundTripPrefix(acl, |acl|);
    assert acl[..|acl|] == acl;
  }

  lemma {:induction false} RoundTripPrefix(acl: seq<AclRule>, n: nat)
    requires n <= |acl|
    ensures |DumpAll(acl[..n])| <= n
    ensures RenderAll(DumpAll(acl[..n])) == acl[..n] <==> forall k :: 0 <= k < n ==> Renders(acl[k])
  {
    hide DumpRule, RenderRule;
    if n == 0 {
      FlatMapEmpty(DumpOne, acl[..0]);
    } else {
      hide FlatMap, RenderAll;
      RoundTripPrefix(acl, n - 1);
      DumpSnoc(acl, n - 1);
      var before, last := DumpAll(acl[..n - 1]), acl[n - 1];
      assert acl[..n] == acl[..n - 1] + [last];
      if DumpRule(last).Some? {
        RenderSnoc(before, DumpRule(last).value);
        SnocEqual(RenderAll(before), RenderRule(DumpRule(last).value), acl[..n - 1], last);
      }
    }
  }

  lemma DumpSnoc(acl: seq<AclRule>, n: nat)
    requires n < |acl|
    ensures DumpAll(acl[..n + 1]) == DumpAll(acl[..n]) + if DumpRule(acl[n]).Some? then [DumpRule(acl[n]).value] else []
  {
    hide DumpRule;
    FlatMapSnoc(DumpOne, acl, n);
  }

  lemma RenderSnoc(rules: seq<Rule>, r: Rule)
    ensures RenderAll(rules + [r]) == RenderAll(rules) + [RenderRule(r)]
  {
    hide RenderRule;
  }

  lemma SnocEqual<T>(x: seq<T>, a: T, y: seq<T>, b: T)
    ensures x + [a] == y + [b] <==> x == y && a == b
  {
    if x + [a] == y + [b] {
      assert |x + [a]| == |y + [b]|;
      assert (x + [a])[..|x|] == x && (y + [b])[..|y|] == y;
      assert (x + [a])[|x|] == a && (y + [b])[|y|] == b;
    }
  }

  lemma {:induction false} DumpCanonical(acl: seq<AclRule>)
    ensures CanonicalRules(DumpAll(acl))
  {
    forall r | r in DumpAll(acl) ensures CanonicalRule(r) {
      FlatMapMember(DumpOne, acl, r);
    }
  }
}
