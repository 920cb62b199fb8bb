/** What VPP does with ACL rules, read off their own fields, and that rendering and dumping keep it
    (plugins/policy/renderer/acl/acl_renderer.go). */
module AclMeaning {
  import opened Base
  import opened Net
  import opened Rules
  import opened VppAcl

  // ----- Which packets a rule matches -----

  /** No text is every address; otherwise the address has to start like the printed one. */
  predicate TextCovers(text: NetText, a: Bits) {
    match text
    case Blank => true
    case CIDR(ip, plen) => plen <= |ip| && |a| == |ip| && a[..plen] == ip[..plen]
    case Malformed => false
  }

  /** Port ranges are intervals; no range is every port. */
  predicate RangeCovers(range: Option<PortRange>, port: uint16) {
    match range
    case None => true
    case Some(PortRange(lower, upper)) => lower <= port <= upper
  }

  predicate PortsCover(ports: Ports, p: Packet) {
    RangeCovers(ports.source, p.srcPort) && RangeCovers(ports.destination, p.destPort)
  }

  predicate L4Covers(l4: L4, p: Packet) {
    match l4
    case Tcp(ports) => p.proto == TCP && PortsCover(ports, p)
    case Udp(ports) => p.proto == UDP && PortsCover(ports, p)
    case IcmpOrOther => false
  }

  predicate AclMatches(a: AclRule, p: Packet) {
    match a.matches
    case Some(Some(IpRule(ip, l4))) =>
      (ip.Some? ==> TextCovers(ip.value.source, p.src) && TextCovers(ip.value.destination, p.dest)) && L4Covers(l4, p)
    case _ => false
  }

  // ----- What an ACL decides -----

  /** The action of the first rule that matches; rules without an action are passed over. */
  function FirstAction(acl: seq<AclRule>, p: Packet): Option<AclAction> {
    if acl == [] then None
    else if acl[0].action.Some? && AclMatches(acl[0], p) then acl[0].action
    else FirstAction(acl[1..], p)
  }

  function AclEvaluate(acl: seq<AclRule>, p: Packet): Verdict {
    match FirstAction(acl, p)
    case None => Unmatched
    case Some(DENY) => Denied
    case Some(PERMIT) => Allowed
    case Some(REFLECT) => Allowed
  }

  /** The packet is let through and opens a session that lets its replies through. */
  predicate Reflects(acl: seq<AclRule>, p: Packet) {
    FirstAction(acl, p) == Some(REFLECT)
  }

  // ----- Rendered rules -----

  lemma RenderNetCovers(n: Network, a: Bits)
    ensures TextCovers(RenderNet(n), a) <==> MatchesNet(n, a)
  {
  }

  lemma RenderPortCovers(port: uint16, q: uint16)
    ensures RangeCovers(Some(RenderPort(port)), q) <==> MatchesPort(port, q)
  {
  }

  lemma RenderRuleMatches(r: Rule, p: Packet)
    ensures AclMatches(RenderRule(r), p) <==> Matches(r, p)
  {
    hide TextCovers, RangeCovers, RenderNet, RenderPort, MatchesNet, MatchesPort;
    RenderNetCovers(r.src, p.src);
    RenderNetCovers(r.dest, p.dest);
    RenderPortCovers(r.srcPort, p.srcPort);
    RenderPortCovers(r.destPort, p.destPort);
  }

  lemma RenderedAction(r: Rule)
    ensures RenderRule(r).action == Some(match r.action case ActionDeny => DENY case ActionPermit => REFLECT)
  {
  }

  /** VPP decides by a rendered list exactly as the first match of the list does, and lets the
      replies of everything through that it allows. */
  lemma {:induction false} RenderedMeaning(rules: seq<Rule>, p: Packet)
    ensures AclEvaluate(RenderAll(rules), p) == Evaluate(rules, p)
    ensures Reflects(RenderAll(rules), p) <==> Evaluate(rules, p) == Allowed
  {
    hide AclMatches, Matches, RenderRule;
    if rules != [] {
      RenderRuleMatches(rules[0], p);
      RenderedAction(rules[0]);
      assert RenderAll(rules)[1..] == RenderAll(rules[1..]);
      RenderedMeaning(rules[1..], p);
    }
  }

  // ----- Dumped rules -----

  /** A single port that is not 0 and fits 16 bits, or all ports. */
  predicate PlainRange(range: Option<PortRange>) {
    range.Some? ==> range.value.lower != range.value.upper || 0 < range.value.lower < 0x1_0000
  }

  predicate PlainPorts(a: AclRule) {
    match a.matches
    case Some(Some(IpRule(_, Tcp(ports)))) => PlainRange(ports.source) && PlainRange(ports.destination)
    case Some(Some(IpRule(_, Udp(ports)))) => PlainRange(ports.source) && PlainRange(ports.destination)
    case _ => true
  }

  /** Why a rule is skipped: an action that is not handled, no IP match, a network that does not
      parse, another protocol, or a range of some ports. */
  lemma SkippedIff(a: AclRule)
    ensures DumpRule(a).None? <==>
            || (a.action != Some(DENY) && a.action != Some(REFLECT))
            || a.matches.None? || a.matches.value.None?
            || var m := a.matches.value.value;
               || m.l4.IcmpOrOther?
               || (m.ip.Some? && (Unparsable(m.ip.value.source) || Unparsable(m.ip.value.destination)))
               || SomePorts(m.l4.ports.source) || SomePorts(m.l4.ports.destination)
  {
  }

  predicate Unparsable(text: NetText) {
    text.Malformed? || (text.CIDR? && text.plen > |text.ip|)
  }

  predicate SomePorts(range: Option<PortRange>) {
    range.Some? && range.value.lower != range.value.upper && range.value != PortRange(0, 65535)
  }

  lemma ParseNetCovers(text: NetText, a: Bits)
    requires ParseNet(text).Some?
    ensures MatchesNet(ParseNet(text).value, a) <==> TextCovers(text, a)
  {
    if text.CIDR? {
      assert Mask(text.ip, text.plen)[..text.plen] == text.ip[..text.plen];
    }
  }

  lemma ParsePortCovers(range: Option<PortRange>, q: uint16)
    requires ParsePort(range).Some? && PlainRange(range)
    ensures MatchesPort(ParsePort(range).value, q) <==> RangeCovers(range, q)
  {
  }

  /** A port that the dumped rule matches and, if the range is not plain, VPP does not. */
  function Witness(range: Option<PortRange>): (q: uint16)
    requires ParsePort(range).Some?
    ensures MatchesPort(ParsePort(range).value, q)
    ensures RangeCovers(range, q) <==> PlainRange(range)
  {
    var port := ParsePort(range).value;
    if port == 0 then 1 else port
  }

  function SomeAddress(n: Network): (a: Bits)
    ensures MatchesNet(n, a)
  {
    if n.AnyNet? then [] else n.ip
  }

  lemma DumpedMatches(a: AclRule, p: Packet)
    requires DumpRule(a).Some? && PlainPorts(a)
    ensures Matches(DumpRule(a).value, p) <==> AclMatches(a, p)
  {
    hide TextCovers, RangeCovers, ParseNet, ParsePort, MatchesNet, MatchesPort, PlainRange;
    var m := a.matches.value.value;
    if m.ip.Some? {
      ParseNetCovers(m.ip.value.source, p.src);
      ParseNetCovers(m.ip.value.destination, p.dest);
    }
    ParsePortCovers(m.l4.ports.source, p.srcPort);
    ParsePortCovers(m.l4.ports.destination, p.destPort);
    assert MatchesNet(AnyNet, p.src) && MatchesNet(AnyNet, p.dest) by { AnyNetMatches(p.src); AnyNetMatches(p.dest); }
  }

  lemma AnyNetMatches(a: Bits)
    ensures MatchesNet(AnyNet, a)
  {
  }

  /** A dumped rule matches the packets that VPP matches, if and only if its ports are plain: the
      range of port 0 alone is taken for all ports, and ports past 16 bits wrap around. */
  lemma DumpedMatchesIff(a: AclRule)
    requires DumpRule(a).Some?
    ensures (forall p: Packet :: Matches(DumpRule(a).value, p) <==> AclMatches(a, p)) <==> PlainPorts(a)
  {
    hide DumpRule, Matches, AclMatches, PlainPorts;
    if PlainPorts(a) {
      forall p: Packet ensures Matches(DumpRule(a).value, p) <==> AclMatches(a, p) {
        DumpedMatches(a, p);
      }
    } else {
      var p := NotPlain(a);
    }
  }

  lemma NotPlain(a: AclRule) returns (p: Packet)
    requires DumpRule(a).Some? && !PlainPorts(a)
    ensures Matches(DumpRule(a).value, p) && !AclMatches(a, p)
  {
    hide TextCovers, RangeCovers, ParseNet, ParsePort, MatchesNet, MatchesPort, PlainRange;
    var r, ports := DumpRule(a).value, a.matches.value.value.l4.ports;
    p := Packet(SomeAddress(r.src), SomeAddress(r.dest), r.proto, Witness(ports.source), Witness(ports.destination));
  }

  lemma DumpedAction(a: AclRule)
    requires DumpRule(a).Some?
    ensures a.action == Some(match DumpRule(a).value.action case ActionDeny => DENY case ActionPermit => REFLECT)
  {
  }

  lemma {:induction false} EvaluateSnoc(rules: seq<Rule>, r: Rule, p: Packet)
    ensures Evaluate(rules + [r], p) == if Evaluate(rules, p) != Unmatched then Evaluate(rules, p) else Evaluate([r], p)
  {
    hide Matches;
    if rules == [] {
      assert rules + [r] == [r];
    } else {
      assert (rules + [r])[1..] == rules[1..] + [r];
      EvaluateSnoc(rules[1..], r, p);
    }
  }

  lemma {:induction false} FirstActionSnoc(acl: seq<AclRule>, a: AclRule, p: Packet)
    ensures FirstAction(acl + [a], p) == if FirstAction(acl, p) != None then FirstAction(acl, p) else FirstAction([a], p)
  {
    hide AclMatches;
    if acl == [] {
      assert acl + [a] == [a];
    } else {
      assert (acl + [a])[1..] == acl[1..] + [a];
      FirstActionSnoc(acl[1..], a, p);
    }
  }

  lemma DumpedOne(a: AclRule, p: Packet)
    requires DumpRule(a).Some? && PlainPorts(a)
    ensures Evaluate([DumpRule(a).value], p) == AclEvaluate([a], p)
  {
    hide DumpRule, Matches, AclMatches, PlainPorts;
    DumpedMatches(a, p);
    DumpedAction(a);
    var r := DumpRule(a).value;
    assert [a][1..] == [] && [r][1..] == [];
    assert FirstAction([a], p) == if AclMatches(a, p) then a.action else FirstAction([], p);
    assert Evaluate([r], p) == if Matches(r, p) then (if r.action == ActionPermit then Allowed else Denied) else Evaluate([], p);
  }

  /** If no rule of an ACL is skipped and all have plain ports, the dumped list decides as VPP does. */
  lemma {:induction false} DumpedMeaning(acl: seq<AclRule>, p: Packet)
    requires forall k :: 0 <= k < |acl| ==> DumpRule(acl[k]).Some? && PlainPorts(acl[k])
    ensures Evaluate(DumpAll(acl), p) == AclEvaluate(acl, p)
  {
    hide DumpRule, Evaluate, FirstAction, PlainPorts, FlatMap;
    if acl == [] {
      FlatMapEmpty(DumpOne, acl);
      NothingDecided(p);
    } else {
      var n := |acl| - 1;
      var init, last := acl[..n], acl[n];
      DumpedMeaning(init, p);
      DumpSnoc(acl, n);
      assert acl[..n + 1] == acl == init + [last];
      EvaluateSnoc(DumpAll(init), DumpRule(last).value, p);
      FirstActionSnoc(init, last, p);
      DumpedOne(last, p);
    }
  }

  lemma NothingDecided(p: Packet)
    ensures Evaluate([], p) == AclEvaluate([], p)
  {
  }
}
