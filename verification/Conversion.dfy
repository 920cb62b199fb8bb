/** Conversion of Contiv rules into VPP session rules: convertIngressRules and
    convertEgressRules (plugins/policy/renderer/vpptcp/cache/cache_impl.go). */
module Conversion {
  import opened Base
  import opened Net
  import opened Rules
  import opened SessionRules
  import opened CombinedRules

  /** Which of the session rules of one Contiv rule a tag belongs to. */
  datatype Part = Whole | Half1 | Half2 | V4Half1 | V4Half2 | V6Half1 | V6Half2

  /** The text that is hashed into a tag. */
  datatype TagKey = TagKey(ns: uint32, egress: bool, ruleID: string, part: Part)

  type Tagging = TagKey -> string

  // ----- Raw addresses -----

  function Ones(n: nat): (z: Bits)
    ensures |z| == n
  {
    seq(n, _ => true)
  }

  /** copy(raw[:], ip.To4()): the four bytes come first. */
  function RawV4(a: Bits): Raw
    requires |a| == 32
  {
    a + Zeros(96)
  }

  /** copy(raw[:], ip.To16()): an IPv4 address is mapped into IPv6. */
  function Raw16(a: Bits): Raw
    requires IsAddress(a)
  {
    if |a| == 128 then a else Zeros(80) + Ones(16) + a
  }

  function RawOf(isIP4: uint8, a: Bits): Raw
    requires IsAddress(a) && (isIP4 == 1 ==> |a| == 32)
  {
    if isIP4 == 1 then RawV4(a) else Raw16(a)
  }

  const LOWER_HALF: Raw := Zeros(128)

  /** RmtIP[0] = 1 << 7 */
  const UPPER_HALF: Raw := Zeros(128)[0 := true]

  function FamilyFlag(a: Bits): uint8 {
    if |a| == 32 then 1 else 0
  }

  function ProtoIndex(p: Protocol): uint8 {
    if p == TCP then RULE_PROTO_TCP else RULE_PROTO_UDP
  }

  function ActionIndex(a: Action): uint32 {
    if a == ActionPermit then RULE_ACTION_ALLOW else RULE_ACTION_DENY
  }

  // ----- Ingress: local tables -----

  /** Allow-all is the default behaviour of the stack and is not installed. */
  predicate IsAllowAll(egress: bool, r: Rule) {
    Opposite(egress, r).AnyNet? && r.destPort == 0 && r.action == ActionPermit
  }

  function IngressSession(ns: uint32, r: Rule, isIP4: uint8, rmtIP: Raw, rmtPlen: uint8, tag: string): SessionRule {
    SessionRule(ProtoIndex(r.proto), isIP4, Zeros(128), 0, rmtIP, rmtPlen, r.srcPort, r.destPort,
                ActionIndex(r.action), ns, RULE_SCOPE_LOCAL, tag)
  }

  /** The all-IPs network is split in half for either family; the first half is listed twice. */
  function IngressOne(tag: Tagging, ns: uint32, r: Rule): seq<SessionRule> {
    if IsAllowAll(false, r) then []
    else if r.dest.AnyNet? then
      var h1 := IngressSession(ns, r, 1, LOWER_HALF, 1, tag(TagKey(ns, false, r.id, V4Half1)));
      var h2 := IngressSession(ns, r, 1, UPPER_HALF, 1, tag(TagKey(ns, false, r.id, V4Half2)));
      var h3 := IngressSession(ns, r, 0, LOWER_HALF, 1, tag(TagKey(ns, false, r.id, V6Half1)));
      var h4 := IngressSession(ns, r, 0, UPPER_HALF, 1, tag(TagKey(ns, false, r.id, V6Half2)));
      [h1, h1, h2, h3, h4]
    else
      [IngressSession(ns, r, FamilyFlag(r.dest.ip), RawOf(FamilyFlag(r.dest.ip), r.dest.ip), r.dest.plen,
                      tag(TagKey(ns, false, r.id, Whole)))]
  }

  function IngressOf(tag: Tagging, ns: uint32): Rule -> seq<SessionRule> {
    r => IngressOne(tag, ns, r)
  }

  function IngressRules(tag: Tagging, ns: uint32, rules: seq<Rule>): seq<SessionRule> {
    FlatMap(IngressOf(tag, ns), rules)
  }

  method ConvertIngressRules(tag: Tagging, ns: uint32, ingress: seq<Rule>) returns (sessionRules: seq<SessionRule>)
    ensures sessionRules == IngressRules(tag, ns, ingress)
  {
    hide FlatMap;
    sessionRules := [];
    FlatMapEmpty(IngressOf(tag, ns), ingress[..0]);
    for i := 0 to |ingress|
      invariant sessionRules == IngressRules(tag, ns, ingress[..i])
    {
      var rule := ingress[i];
      FlatMapSnoc(IngressOf(tag, ns), ingress, i);
      if rule.dest.AnyNet? && rule.destPort == 0 && rule.action == ActionPermit { continue; }
      var sessionRule := IngressSession(ns, rule, 0, Zeros(128), 0, "");
      if rule.dest.Subnet? {
        if |rule.dest.ip| == 32 {
          sessionRule := sessionRule.(isIP4 := 1, rmtIP := RawV4(rule.dest.ip));
        } else {
          sessionRule := sessionRule.(rmtIP := Raw16(rule.dest.ip));
        }
        sessionRule := sessionRule.(rmtPlen := rule.dest.plen, tag := tag(TagKey(ns, false, rule.id, Whole)));
        sessionRules := sessionRules + [sessionRule];
      } else {
        sessionRule := sessionRule.(rmtPlen := 1);
        var h1 := sessionRule.(isIP4 := 1, tag := tag(TagKey(ns, false, rule.id, V4Half1)));
        var h2 := sessionRule.(isIP4 := 1, rmtIP := UPPER_HALF, tag := tag(TagKey(ns, false, rule.id, V4Half2)));
        var h3 := sessionRule.(tag := tag(TagKey(ns, false, rule.id, V6Half1)));
        var h4 := sessionRule.(rmtIP := UPPER_HALF, tag := tag(TagKey(ns, false, rule.id, V6Half2)));
        sessionRules := sessionRules + [h1];
        sessionRules := sessionRules + [h1, h2, h3, h4];
        assert [h1] + [h1, h2, h3, h4] == IngressOne(tag, ns, rule);
      }
    }
    assert ingress[..|ingress|] == ingress;
  }

  // ----- Egress: global table -----

  function EgressFlag(ip: Address, r: Rule): uint8 {
    if |ip| == 32 && (r.src.AnyNet? || |r.src.ip| == 32) then 1 else 0
  }

  function EgressSession(ip: Address, r: Rule, rmtIP: Raw, rmtPlen: uint8, tag: string): SessionRule {
    SessionRule(ProtoIndex(r.proto), EgressFlag(ip, r), RawOf(EgressFlag(ip, r), ip), |ip|, rmtIP, rmtPlen,
                r.destPort, r.srcPort, ActionIndex(r.action), 0, RULE_SCOPE_GLOBAL, tag)
  }

  function EgressOne(tag: Tagging, ns: uint32, ip: Address, r: Rule): seq<SessionRule> {
    if IsAllowAll(true, r) then []
    else if r.src.AnyNet? then
      [EgressSession(ip, r, LOWER_HALF, 1, tag(TagKey(ns, true, r.id, Half1))),
       EgressSession(ip, r, UPPER_HALF, 1, tag(TagKey(ns, true, r.id, Half2)))]
    else
      [EgressSession(ip, r, RawOf(EgressFlag(ip, r), r.src.ip), r.src.plen, tag(TagKey(ns, true, r.id, Whole)))]
  }

  function EgressOf(tag: Tagging, ns: uint32, ip: Address): Rule -> seq<SessionRule> {
    r => EgressOne(tag, ns, ip, r)
  }

  function EgressRules(tag: Tagging, ns: uint32, ip: Address, rules: seq<Rule>): seq<SessionRule> {
    FlatMap(EgressOf(tag, ns, ip), rules)
  }

  method ConvertEgressRules(tag: Tagging, ns: uint32, ip: Address, egress: seq<Rule>) returns (sessionRules: seq<SessionRule>)
    ensures sessionRules == EgressRules(tag, ns, ip, egress)
  {
    hide FlatMap;
    sessionRules := [];
    FlatMapEmpty(EgressOf(tag, ns, ip), egress[..0]);
    for i := 0 to |egress|
      invariant sessionRules == EgressRules(tag, ns, ip, egress[..i])
    {
      var rule := egress[i];
      FlatMapSnoc(EgressOf(tag, ns, ip), egress, i);
      if rule.src.AnyNet? && rule.destPort == 0 && rule.action == ActionPermit { continue; }
      var sessionRule := EgressSession(ip, rule, Zeros(128), 0, "");
      if rule.src.Subnet? {
        if sessionRule.isIP4 == 1 {
          sessionRule := sessionRule.(rmtIP := RawV4(rule.src.ip));
        } else {
          sessionRule := sessionRule.(rmtIP := Raw16(rule.src.ip));
        }
        sessionRule := sessionRule.(rmtPlen := rule.src.plen, tag := tag(TagKey(ns, true, rule.id, Whole)));
        sessionRules := sessionRules + [sessionRule];
      } else {
        sessionRule := sessionRule.(rmtPlen := 1);
        var sessionRule2 := sessionRule.(rmtIP := UPPER_HALF, tag := tag(TagKey(ns, true, rule.id, Half2)));
        sessionRule := sessionRule.(tag := tag(TagKey(ns, true, rule.id, Half1)));
        sessionRules := sessionRules + [sessionRule];
        sessionRules := sessionRules + [sessionRule2];
        assert [sessionRule] + [sessionRule2] == EgressOne(tag, ns, ip, rule);
      }
    }
    assert egress[..|egress|] == egress;
  }

  // ----- Which connections a session rule matches -----

  /** Where VPP looks for rules: connections opened by an application are looked up in the local
      table of its namespace, connections that arrive in the global table. */
  datatype Lookup = LocalTable(ns: uint32) | GlobalTable

  /** A connection of a local application: the lookup, the two ends and the protocol. */
  datatype Conn = Conn(lookup: Lookup, lcl: Address, lclPort: uint16, rmt: Address, rmtPort: uint16, proto: Protocol)

  /** The scope of a rule says whether it is global (1) or local (2) to its namespace. */
  predicate TakesPart(s: SessionRule, lookup: Lookup) {
    match lookup
    case LocalTable(ns) => s.scope == 2 && s.appnsIndex == ns
    case GlobalTable => s.scope == 1
  }

  /** The 16 bytes in which VPP holds an address: IPv4 occupies the first four. */
  function Held(a: Address): Raw {
    a + Zeros(128 - |a|)
  }

  predicate SamePrefix(a: Raw, b: Raw, plen: uint8) {
    plen <= 128 && a[..plen] == b[..plen]
  }

  /** The numbers of a session rule as VPP reads them: 1 is IPv4, protocol 0 is TCP and 1 is UDP,
      port 0 is any port. */
  predicate SessionHits(s: SessionRule, c: Conn) {
    && TakesPart(s, c.lookup)
    && s.isIP4 == (if |c.rmt| == 32 then 1 else 0)
    && SamePrefix(s.lclIP, Held(c.lcl), s.lclPlen)
    && SamePrefix(s.rmtIP, Held(c.rmt), s.rmtPlen)
    && s.transportProto == (match c.proto case TCP => 0 case UDP => 1)
    && (s.lclPort == 0 || s.lclPort == c.lclPort)
    && (s.rmtPort == 0 || s.rmtPort == c.rmtPort)
  }

  lemma RawIsHeld(a: Address)
    ensures RawOf(FamilyFlag(a), a) == Held(a)
  {
    assert |a| == 128 ==> a + Zeros(0) == a;
  }

  lemma HeldPrefix(a: Address, b: Address, plen: uint8)
    requires |a| == |b| && plen <= |a|
    ensures SamePrefix(Held(a), Held(b), plen) <==> a[..plen] == b[..plen]
  {
    assert Held(a)[..plen] == a[..plen] && Held(b)[..plen] == b[..plen];
  }

  lemma RawInjective(a: Address, b: Address)
    requires |a| == |b| && RawOf(FamilyFlag(a), a) == RawOf(FamilyFlag(b), b)
    ensures a == b
  {
    assert RawOf(FamilyFlag(a), a)[..|a|] == a;
    assert RawOf(FamilyFlag(b), b)[..|b|] == b;
  }

  lemma HalvesCover(rmt: Raw)
    ensures SamePrefix(LOWER_HALF, rmt, 1) <==> !rmt[0]
    ensures SamePrefix(UPPER_HALF, rmt, 1) <==> rmt[0]
  {
    assert rmt[..1] == [rmt[0]] && LOWER_HALF[..1] == [false] && UPPER_HALF[..1] == [true];
  }

  /** A connection from the pod behind a local table to a remote address and port. */
  function Outgoing(ns: uint32, lcl: Address, a: Address, proto: Protocol, port: uint16): Conn {
    Conn(LocalTable(ns), lcl, 0, a, port, proto)
  }

  /** A connection arriving at the port of a pod from a remote address of its family. */
  function Incoming(ip: Address, a: Address, proto: Protocol, srcPort: uint16, port: uint16): Conn
    requires |ip| == |a|
  {
    Conn(GlobalTable, ip, port, a, srcPort, proto)
  }

  ghost predicate SomeHits(rules: seq<SessionRule>, c: Conn) {
    exists s :: s in rules && SessionHits(s, c)
  }

  ghost predicate AtMostOneHits(rules: seq<SessionRule>, c: Conn) {
    forall s, t :: s in rules && t in rules && SessionHits(s, c) && SessionHits(t, c) ==> s == t
  }

  lemma IngressSessionHits(ns: uint32, r: Rule, isIP4: uint8, rmtIP: Raw, rmtPlen: uint8, tag: string, c: Conn)
    requires r.srcPort == 0
    ensures SessionHits(IngressSession(ns, r, isIP4, rmtIP, rmtPlen, tag), c) <==>
            && c.lookup == LocalTable(ns) && isIP4 == (if |c.rmt| == 32 then 1 else 0)
            && SamePrefix(rmtIP, Held(c.rmt), rmtPlen) && r.proto == c.proto && MatchesPort(r.destPort, c.rmtPort)
  {
    assert Zeros(128)[..0] == Held(c.lcl)[..0];
  }

  lemma IngressHalfHits(tag: Tagging, ns: uint32, r: Rule, c: Conn, s: SessionRule)
    requires r.srcPort == 0 && r.dest.AnyNet? && s in IngressOne(tag, ns, r)
    ensures SessionHits(s, c) <==>
            && c.lookup == LocalTable(ns) && s.isIP4 == (if |c.rmt| == 32 then 1 else 0) && (s.rmtIP == UPPER_HALF <==> c.rmt[0])
            && r.proto == c.proto && MatchesPort(r.destPort, c.rmtPort)
  {
    HalvesCover(Held(c.rmt));
    assert LOWER_HALF[0] != UPPER_HALF[0];
    assert s == IngressSession(ns, r, s.isIP4, s.rmtIP, 1, s.tag) && (s.rmtIP == LOWER_HALF || s.rmtIP == UPPER_HALF);
    IngressSessionHits(ns, r, s.isIP4, s.rmtIP, 1, s.tag, c);
  }

  lemma IngressHalvesHit(tag: Tagging, ns: uint32, r: Rule, c: Conn)
    requires r.srcPort == 0 && r.dest.AnyNet? && !IsAllowAll(false, r)
    ensures SomeHits(IngressOne(tag, ns, r), c) <==>
            c.lookup == LocalTable(ns) && r.proto == c.proto && MatchesPort(r.destPort, c.rmtPort)
    ensures AtMostOneHits(IngressOne(tag, ns, r), c)
  {
    var rules := IngressOne(tag, ns, r);
    assert LOWER_HALF[0] != UPPER_HALF[0];
    var k := if |c.rmt| == 32 then (if c.rmt[0] then 2 else 1) else (if c.rmt[0] then 4 else 3);
    assert rules[k] in rules;
    IngressHalfHits(tag, ns, r, c, rules[k]);
    forall s, t | s in rules && t in rules && SessionHits(s, c) && SessionHits(t, c) ensures s == t {
      IngressHalfHits(tag, ns, r, c, s);
      IngressHalfHits(tag, ns, r, c, t);
    }
    if SomeHits(rules, c) {
      var s :| s in rules && SessionHits(s, c);
      IngressHalfHits(tag, ns, r, c, s);
    }
  }

  lemma IngressSubnetHits(tag: Tagging, ns: uint32, r: Rule, c: Conn)
    requires r.srcPort == 0 && r.dest.Subnet?
    ensures SomeHits(IngressOne(tag, ns, r), c) <==>
            c.lookup == LocalTable(ns) && Contains(r.dest, c.rmt) && r.proto == c.proto && MatchesPort(r.destPort, c.rmtPort)
    ensures AtMostOneHits(IngressOne(tag, ns, r), c)
  {
    var s := IngressOne(tag, ns, r)[0];
    assert s in IngressOne(tag, ns, r);
    IngressSessionHits(ns, r, s.isIP4, s.rmtIP, s.rmtPlen, s.tag, c);
    RawIsHeld(r.dest.ip);
    if |c.rmt| == |r.dest.ip| {
      HeldPrefix(r.dest.ip, c.rmt, r.dest.plen);
    }
  }

  /** The session rules of an installed ingress rule take part in the lookups of their namespace
      only, and match there exactly the connections that the rule matches; the halves of the all-IPs
      network are disjoint and cover everything. */
  lemma IngressOneHits(tag: Tagging, ns: uint32, r: Rule, c: Conn)
    requires r.srcPort == 0 && !IsAllowAll(false, r)
    ensures SomeHits(IngressOne(tag, ns, r), c) <==>
            c.lookup == LocalTable(ns) && MatchesNet(r.dest, c.rmt) && r.proto == c.proto && MatchesPort(r.destPort, c.rmtPort)
    ensures AtMostOneHits(IngressOne(tag, ns, r), c)
  {
    if r.dest.AnyNet? {
      IngressHalvesHit(tag, ns, r, c);
    } else {
      IngressSubnetHits(tag, ns, r, c);
    }
  }

  /** An IPv4 network cannot be encoded for an IPv6 pod. */
  predicate Encodable(ip: Address, r: Rule) {
    r.src.Subnet? && |r.src.ip| == 32 ==> |ip| == 32
  }

  predicate AllEncodable(ip: Address, rules: seq<Rule>) {
    forall i :: 0 <= i < |rules| ==> Encodable(ip, rules[i])
  }

  lemma EgressOneHits(tag: Tagging, ns: uint32, ip: Address, r: Rule, a: Address, proto: Protocol, srcPort: uint16, port: uint16)
    requires r.srcPort == 0 && !IsAllowAll(true, r) && |a| == |ip| && Encodable(ip, r)
    ensures SomeHits(EgressOne(tag, ns, ip, r), Incoming(ip, a, proto, srcPort, port)) <==>
            MatchesNet(r.src, a) && r.proto == proto && MatchesPort(r.destPort, port)
    ensures AtMostOneHits(EgressOne(tag, ns, ip, r), Incoming(ip, a, proto, srcPort, port))
  {
    var c := Incoming(ip, a, proto, srcPort, port);
    var rules := EgressOne(tag, ns, ip, r);
    RawIsHeld(ip);
    if r.src.AnyNet? {
      HalvesCover(Held(c.rmt));
      assert LOWER_HALF[0] != UPPER_HALF[0];
      var k := if c.rmt[0] then 1 else 0;
      assert rules[k] in rules;
      assert SessionHits(rules[k], c) <==> r.proto == proto && MatchesPort(r.destPort, port);
    } else {
      RawIsHeld(r.src.ip);
      if |r.src.ip| == |ip| {
        HeldPrefix(r.src.ip, a, r.src.plen);
      }
      assert rules[0] in rules;
    }
  }

  /** The converted rules match exactly the connections that arrive at the pod from the network of
      the rule, whatever pod of the host a connection arrives at. */
  ghost predicate EgressExact(tag: Tagging, ns: uint32, ip: Address, r: Rule) {
    forall other: Address, a: Address, proto: Protocol, srcPort: uint16, port: uint16 :: |a| == |other| ==>
      (SomeHits(EgressOne(tag, ns, ip, r), Incoming(other, a, proto, srcPort, port)) <==>
       other == ip && MatchesNet(r.src, a) && r.proto == proto && MatchesPort(r.destPort, port))
  }

  /** An IPv6 network given to an IPv4 pod is matched against the other pods: those whose IPv6
      address starts with 32 zero bits. */
  predicate Leaks(ip: Address, r: Rule, other: Address) {
    |ip| == 32 && r.src.Subnet? && |r.src.ip| == 128 && |other| == 128 && other[..32] == Zeros(32)
  }

  /** Apart from such leaks, converted rules match only what arrives at their own pod. */
  lemma EgressOwnAddress(tag: Tagging, ns: uint32, ip: Address, r: Rule, s: SessionRule, other: Address, c: Conn)
    requires s in EgressOne(tag, ns, ip, r) && SessionHits(s, c)
    requires c.lcl == other && |c.rmt| == |other| && !Leaks(ip, r, other)
    ensures other == ip
  {
    assert s.lclIP == RawOf(EgressFlag(ip, r), ip) && s.lclPlen == |ip| && s.isIP4 == EgressFlag(ip, r);
    assert |ip| == 32 ==> Raw16(ip)[..32] == Zeros(32);
    if |ip| == |other| && EgressFlag(ip, r) == FamilyFlag(ip) {
      RawIsHeld(ip);
      HeldPrefix(ip, other, |ip|);
      assert ip[..|ip|] == ip && other[..|ip|] == other;
    }
  }

  /** An IPv4 network given to an IPv6 pod matches addresses that start with zeros instead. */
  lemma MappedNetworkHits(tag: Tagging, ns: uint32, ip: Address, r: Rule, srcPort: uint16)
    requires r.srcPort == 0 && |ip| == 128 && r.src.Subnet? && |r.src.ip| == 32
    ensures SomeHits(EgressOne(tag, ns, ip, r), Incoming(ip, Zeros(128), r.proto, srcPort, r.destPort))
    ensures !MatchesNet(r.src, Zeros(128))
  {
    var c := Incoming(ip, Zeros(128), r.proto, srcPort, r.destPort);
    var rules := EgressOne(tag, ns, ip, r);
    assert Raw16(r.src.ip)[..r.src.plen] == Zeros(128)[..r.src.plen];
    assert rules[0] in rules && SessionHits(rules[0], c);
  }

  /** An IPv6 network given to an IPv4 pod opens other pods to it. */
  lemma LeakHits(tag: Tagging, ns: uint32, ip: Address, r: Rule, other: Address, a: Address, srcPort: uint16)
    requires r.srcPort == 0 && Leaks(ip, r, other) && |a| == |other| && MatchesNet(r.src, a)
    ensures SomeHits(EgressOne(tag, ns, ip, r), Incoming(other, a, r.proto, srcPort, r.destPort)) && other != ip
  {
    var c := Incoming(other, a, r.proto, srcPort, r.destPort);
    var rules := EgressOne(tag, ns, ip, r);
    assert Raw16(ip)[..32] == Zeros(32);
    RawIsHeld(r.src.ip);
    HeldPrefix(r.src.ip, a, r.src.plen);
    assert rules[0] in rules && SessionHits(rules[0], c);
  }

  /** Conversion of an egress rule is exact if and only if its network is of the family of the
      pod. */
  lemma EgressExactIff(tag: Tagging, ns: uint32, ip: Address, r: Rule)
    requires r.srcPort == 0 && !IsAllowAll(true, r)
    ensures EgressExact(tag, ns, ip, r) <==> (r.src.Subnet? ==> |r.src.ip| == |ip|)
  {
    hide SomeHits, EgressOne, Incoming;
    if r.src.Subnet? ==> |r.src.ip| == |ip| {
      forall other: Address, a: Address, proto: Protocol, srcPort: uint16, port: uint16 | |a| == |other|
        ensures SomeHits(EgressOne(tag, ns, ip, r), Incoming(other, a, proto, srcPort, port)) <==>
                other == ip && MatchesNet(r.src, a) && r.proto == proto && MatchesPort(r.destPort, port)
      {
        EgressArrives(tag, ns, ip, r, other, a, proto, srcPort, port);
      }
    } else if |ip| == 128 {
      MappedNetworkHits(tag, ns, ip, r, 0);
    } else {
      assert Zeros(128)[..32] == Zeros(32);
      LeakHits(tag, ns, ip, r, Zeros(128), r.src.ip, 0);
    }
  }

  lemma EgressArrives(tag: Tagging, ns: uint32, ip: Address, r: Rule, other: Address, a: Address,
                      proto: Protocol, srcPort: uint16, port: uint16)
    requires r.srcPort == 0 && !IsAllowAll(true, r) && (r.src.Subnet? ==> |r.src.ip| == |ip|) && |a| == |other|
    ensures SomeHits(EgressOne(tag, ns, ip, r), Incoming(other, a, proto, srcPort, port)) <==>
            other == ip && MatchesNet(r.src, a) && r.proto == proto && MatchesPort(r.destPort, port)
  {
    hide EgressOne, SessionHits;
    var rules, c := EgressOne(tag, ns, ip, r), Incoming(other, a, proto, srcPort, port);
    forall s | s in rules && SessionHits(s, c) ensures other == ip {
      EgressOwnAddress(tag, ns, ip, r, s, other, c);
    }
    if other == ip {
      EgressOneHits(tag, ns, ip, r, a, proto, srcPort, port);
    }
  }
}
