/** What the combined ingress rules decide.  The stack looks a connection up in a table by the
    longest remote prefix, then an explicit port before any port, then the order of the table,
    and allows what no rule matches. */
module CombinedDecisions {
  import opened Base
  import opened Net
  import opened Rules
  import opened CombinedRules

  /** A connection from the pod that owns the table to a remote address and port. */
  datatype Query = Query(addr: Bits, proto: Protocol, port: uint16)

  predicate Hits(r: Rule, q: Query) {
    MatchesNet(r.dest, q.addr) && r.proto == q.proto && MatchesPort(r.destPort, q.port)
  }

  function Rank(r: Rule): nat {
    2 * PlenOf(r.dest) + (if r.destPort != 0 then 1 else 0)
  }

  /** The rule that decides: of the highest rank, and the first of those in the list. */
  function Best(rules: seq<Rule>, q: Query): Option<Rule> {
    if rules == [] then None
    else
      var best, last := Best(rules[..|rules| - 1], q), rules[|rules| - 1];
      if Hits(last, q) && (best.None? || Rank(last) > Rank(best.value)) then Some(last) else best
  }

  predicate LookupPermits(rules: seq<Rule>, q: Query) {
    var best := Best(rules, q);
    best.None? || best.value.action == ActionPermit
  }

  lemma {:induction false} BestIsBest(rules: seq<Rule>, q: Query)
    ensures Best(rules, q).None? <==> forall r :: r in rules ==> !Hits(r, q)
    ensures Best(rules, q).Some? ==>
              var best := Best(rules, q).value;
              best in rules && Hits(best, q) && forall r :: r in rules && Hits(r, q) ==> Rank(r) <= Rank(best)
  {
    if rules != [] {
      BestIsBest(rules[..|rules| - 1], q);
      assert rules == rules[..|rules| - 1] + [rules[|rules| - 1]];
    }
  }

  function Hitting(rules: seq<Rule>, q: Query): seq<Rule> {
    if rules == [] then []
    else Hitting(rules[..|rules| - 1], q) + (if Hits(rules[|rules| - 1], q) then [rules[|rules| - 1]] else [])
  }

  lemma {:induction false} BestOfHitting(rules: seq<Rule>, q: Query)
    ensures Best(rules, q) == Best(Hitting(rules, q), q)
  {
    if rules != [] {
      var init, last := rules[..|rules| - 1], rules[|rules| - 1];
      BestOfHitting(init, q);
      if Hits(last, q) {
        var h := Hitting(init, q);
        assert (h + [last])[..|h + [last]| - 1] == h;
      } else {
        assert Hitting(rules, q) == Hitting(init, q);
      }
    }
  }

  lemma {:induction false} HittingConcat(a: seq<Rule>, b: seq<Rule>, q: Query)
    ensures Hitting(a + b, q) == Hitting(a, q) + Hitting(b, q)
  {
    if b == [] {
      assert a + b == a;
    } else {
      HittingConcat(a, b[..|b| - 1], q);
      assert (a + b)[..|a + b| - 1] == a + b[..|b| - 1];
    }
  }

  // ----- The list shape that the cache assumes -----

  predicate IsDenyAll(r: Rule, proto: Protocol) {
    r.action == ActionDeny && r.src.AnyNet? && r.dest.AnyNet? && r.proto == proto && r.srcPort == 0 && r.destPort == 0
  }

  /** No deny rule at all, or permit rules followed by deny-the-rest for both protocols. */
  predicate DenyTail(rules: seq<Rule>) {
    || rules == []
    || (|rules| == 2 && IsDenyAll(rules[0], TCP) && IsDenyAll(rules[1], UDP))
    || (|rules| == 2 && IsDenyAll(rules[0], UDP) && IsDenyAll(rules[1], TCP))
  }

  ghost predicate SplitAt(rules: seq<Rule>, n: nat) {
    n <= |rules| && AllPermit(rules[..n]) && DenyTail(rules[n..])
  }

  ghost predicate HasShape(rules: seq<Rule>) {
    exists n: nat :: SplitAt(rules, n)
  }

  /** For ingress rules the source is unset, for egress rules the destination is. */
  predicate OneSided(egress: bool, rules: seq<Rule>) {
    forall i :: 0 <= i < |rules| ==>
      (if egress then rules[i].dest.AnyNet? else rules[i].src.AnyNet?) && rules[i].srcPort == 0
  }

  ghost predicate WellShaped(cfg: Config) {
    && DistinctIPs(cfg)
    && forall ns :: ns in cfg ==>
         && HasShape(cfg[ns].ingress) && OneSided(false, cfg[ns].ingress)
         && HasShape(cfg[ns].egress) && OneSided(true, cfg[ns].egress)
  }

  lemma ShapeDeny(rules: seq<Rule>, n: nat)
    requires SplitAt(rules, n)
    ensures HasDeny(rules) <==> rules[n..] != []
    ensures AllPermit(rules[..n])
    ensures forall r :: r in rules && r.action == ActionPermit <==> r in rules[..n]
  {
    assert rules == rules[..n] + rules[n..];
    forall i | 0 <= i < n ensures rules[i].action == ActionPermit && rules[i] in rules[..n] {
      assert rules[..n][i] == rules[i];
    }
    forall i | n <= i < |rules| ensures rules[i].action == ActionDeny {
      assert rules[n..][i - n] == rules[i];
    }
    if rules[n..] != [] {
      assert rules[n].action == ActionDeny;
    }
  }

  lemma TailDenies(rules: seq<Rule>, n: nat, d: Rule)
    requires n <= |rules| && DenyTail(rules[n..]) && AllPermit(rules[..n]) && d in rules && d.action == ActionDeny
    ensures IsDenyAll(d, d.proto) && rules[n..] != []
  {
    hide IsDenyAll;
    assert rules == rules[..n] + rules[n..];
    assert d in rules[n..];
    DenyAllProto(d);
  }

  lemma DenyAllProto(d: Rule)
    ensures IsDenyAll(d, TCP) || IsDenyAll(d, UDP) ==> IsDenyAll(d, d.proto)
  {
  }

  lemma DeniesAreDenyAll(rules: seq<Rule>, d: Rule)
    requires HasShape(rules) && d in rules && d.action == ActionDeny
    ensures IsDenyAll(d, d.proto) && HasDeny(rules)
  {
    hide IsDenyAll, HasDeny, DenyTail, AllPermit;
    var n: nat :| SplitAt(rules, n);
    ShapeDeny(rules, n);
    TailDenies(rules, n, d);
  }

  lemma DenyFor(rules: seq<Rule>, proto: Protocol) returns (d: Rule)
    requires HasShape(rules) && HasDeny(rules)
    ensures d in rules && IsDenyAll(d, proto)
  {
    var n: nat :| SplitAt(rules, n);
    ShapeDeny(rules, n);
    d := if rules[n].proto == proto then rules[n] else rules[n + 1];
    assert rules[n..][0] == rules[n] && rules[n..][1] == rules[n + 1];
  }

  /** The packet of a connection, seen by the side whose opposite address is a. */
  predicate Fits(egress: bool, p: Packet, a: Bits) {
    if egress then p.src == a else p.dest == a
  }

  lemma OpenedPorts(egress: bool, rules: seq<Rule>, permits: seq<Rule>, p: Packet, a: Bits)
    requires OneSided(egress, rules) && Fits(egress, p, a)
    requires forall r :: r in rules && r.action == ActionPermit <==> r in permits
    ensures AnyMatches(permits, p) <==> Has(AllowedPorts(egress, a, rules, p.proto), p.destPort)
  {
    hide MatchesNet;
    var ports := AllowedPorts(egress, a, rules, p.proto);
    forall r | r in permits
      ensures Matches(r, p) <==> AllowsFor(egress, r, a, p.proto) && MatchesPort(r.destPort, p.destPort)
    {
      AnyMatchesAll(p);
      var i :| 0 <= i < |rules| && rules[i] == r;
    }
    if AnyMatches(permits, p) {
      var r :| r in permits && Matches(r, p);
      assert r.destPort in ports;
    }
    if Has(ports, p.destPort) {
      var port :| port in ports && MatchesPort(port, p.destPort);
      var r :| r in rules && AllowsFor(egress, r, a, p.proto) && r.destPort == port;
      assert r in permits && Matches(r, p);
    }
  }

  lemma AnyMatchesAll(p: Packet)
    ensures MatchesNet(AnyNet, p.src) && MatchesNet(AnyNet, p.dest)
  {
  }

  /** A shaped list permits exactly the ports that its permit rules open. */
  lemma ShapePermits(egress: bool, rules: seq<Rule>, p: Packet, a: Bits)
    requires HasShape(rules) && OneSided(egress, rules) && Fits(egress, p, a)
    ensures Permits(rules, p) <==> !HasDeny(rules) || Has(AllowedPorts(egress, a, rules, p.proto), p.destPort)
  {
    hide AllowedPorts, HasDeny;
    var n: nat :| SplitAt(rules, n);
    ShapeDeny(rules, n);
    var permits, denies := rules[..n], rules[n..];
    assert rules == permits + denies;
    EvaluatePermitsThen(permits, denies, p);
    OpenedPorts(egress, rules, permits, p, a);
    assert denies != [] ==> denies[1..] == [denies[1]];
  }

  ghost predicate SomePermitHits(rules: seq<Rule>, q: Query) {
    exists r :: r in rules && r.action == ActionPermit && Hits(r, q)
  }

  lemma AllowedPortsHit(rules: seq<Rule>, q: Query)
    ensures Has(AllowedPorts(false, q.addr, rules, q.proto), q.port) <==> SomePermitHits(rules, q)
  {
    if Has(AllowedPorts(false, q.addr, rules, q.proto), q.port) {
      var port :| port in AllowedPorts(false, q.addr, rules, q.proto) && MatchesPort(port, q.port);
      var r :| r in rules && AllowsFor(false, r, q.addr, q.proto) && r.destPort == port;
      assert Hits(r, q);
    }
    if SomePermitHits(rules, q) {
      var r :| r in rules && r.action == ActionPermit && Hits(r, q);
      assert AllowsFor(false, r, q.addr, q.proto);
    }
  }

  lemma {:induction false} PermitsFirst(permits: seq<Rule>, denies: seq<Rule>, q: Query)
    requires AllPermit(permits) && forall r :: r in denies ==> Rank(r) == 0
    ensures SomePermitHits(permits, q) ==> LookupPermits(permits + denies, q)
    ensures SomePermitHits(permits, q) ==> Best(permits + denies, q).Some?
  {
    if denies == [] {
      assert permits + denies == permits;
      BestIsBest(permits, q);
    } else {
      var init, last := denies[..|denies| - 1], denies[|denies| - 1];
      assert denies == init + [last];
      PermitsFirst(permits, init, q);
      assert (permits + denies)[..|permits + denies| - 1] == permits + init;
      assert (permits + denies)[|permits + denies| - 1] == last && last in denies;
    }
  }

  /** On a shaped list the table lookup and the first match agree. */
  lemma ShapeLookup(rules: seq<Rule>, q: Query)
    requires HasShape(rules)
    ensures LookupPermits(rules, q) <==> !HasDeny(rules) || SomePermitHits(rules, q)
  {
    hide HasDeny, Best, Rank, Hits;
    var n: nat :| SplitAt(rules, n);
    ShapeDeny(rules, n);
    var permits, denies := rules[..n], rules[n..];
    assert rules == permits + denies;
    forall r | r in denies ensures Rank(r) == 0 { DenyAllRank(r, r.proto); }
    if SomePermitHits(rules, q) {
      var r :| r in rules && r.action == ActionPermit && Hits(r, q);
      assert r in permits;
      PermitsFirst(permits, denies, q);
    } else {
      BestIsBest(rules, q);
      if HasDeny(rules) {
        var d := DenyFor(rules, q.proto);
        DenyAllHits(d, q);
      }
    }
  }

  lemma DenyAllRank(r: Rule, proto: Protocol)
    requires IsDenyAll(r, proto)
    ensures Rank(r) == 0
  {
  }

  lemma DenyAllHits(r: Rule, q: Query)
    requires IsDenyAll(r, q.proto)
    ensures Hits(r, q)
  {
  }

  // ----- Untouched connections -----

  /** No explicit rule was added for the address under this protocol. */
  ghost predicate Untouched(cfg: Config, ns: uint32, q: Query) {
    forall rmt :: rmt in cfg && Restricted(cfg, ns, rmt, q.proto) ==> cfg[rmt].ip != q.addr
  }

  lemma HostRuleHits(r: Rule, q: Query)
    ensures Hits(r, q) && r.dest.Subnet? && r.dest.plen == |r.dest.ip| ==> r.dest.ip == q.addr
  {
    if Hits(r, q) && r.dest.Subnet? && r.dest.plen == |r.dest.ip| {
      assert q.addr == q.addr[..r.dest.plen] == r.dest.ip[..r.dest.plen] == r.dest.ip;
    }
  }

  lemma {:induction false} HittingKept(cfg: Config, ns: uint32, rules: seq<Rule>, q: Query)
    requires Untouched(cfg, ns, q)
    ensures Hitting(Kept(cfg, ns, AllDone(cfg), rules), q) == Hitting(rules, q)
  {
    if rules != [] {
      var init, last := rules[..|rules| - 1], rules[|rules| - 1];
      HittingKept(cfg, ns, init, q);
      var kept := Kept(cfg, ns, AllDone(cfg), init);
      if IsDropped(cfg, ns, AllDone(cfg), last) {
        var rmt :| rmt in AllDone(cfg).Of(last.proto) && Restricted(cfg, ns, rmt, last.proto) && IsHostRule(last, last.proto, cfg[rmt].ip);
        HostRuleHits(last, q);
        assert Kept(cfg, ns, AllDone(cfg), rules) == kept;
      } else {
        HittingConcat(kept, [last], q);
        assert Hitting([last], q) == if Hits(last, q) then [last] else [] by { assert [last][..0] == []; }
      }
    }
  }

  lemma {:induction false} HittingNone(rules: seq<Rule>, q: Query)
    requires forall r :: r in rules ==> !Hits(r, q)
    ensures Hitting(rules, q) == []
  {
    if rules != [] {
      assert rules == rules[..|rules| - 1] + [rules[|rules| - 1]];
      HittingNone(rules[..|rules| - 1], q);
    }
  }

  lemma UntouchedLookup(name: Naming, cfg: Config, ns: uint32, rules: seq<Rule>, added: seq<Rule>, q: Query)
    requires IsCombined(name, cfg, ns, rules, added) && Untouched(cfg, ns, q)
    ensures Best(rules, q) == Best(cfg[ns].ingress, q)
  {
    var kept := Kept(cfg, ns, AllDone(cfg), cfg[ns].ingress);
    forall r | r in added ensures !Hits(r, q) {
      assert IsNew(name, cfg, ns, AllDone(cfg), r);
      var rmt :| rmt in cfg.Keys && Restricted(cfg, ns, rmt, r.proto) && IsRuleFor(name, cfg, ns, rmt, r.proto, r);
      assert r.dest == OneHost(cfg[rmt].ip);
    }
    HittingNone(added, q);
    HittingKept(cfg, ns, cfg[ns].ingress, q);
    HittingConcat(kept, added, q);
    BestOfHitting(rules, q);
    BestOfHitting(cfg[ns].ingress, q);
    assert Hitting(kept, q) + [] == Hitting(kept, q);
  }

  // ----- Restricted connections -----

  lemma {:induction false} KeptMember(cfg: Config, ns: uint32, done: Done, rules: seq<Rule>, r: Rule)
    ensures r in Kept(cfg, ns, done, rules) <==> r in rules && !IsDropped(cfg, ns, done, r)
  {
    if rules != [] {
      var init, last := rules[..|rules| - 1], rules[|rules| - 1];
      assert rules == init + [last];
      KeptMember(cfg, ns, done, init, r);
    }
  }

  lemma OpenPortsMeaning(cfg: Config, ns: uint32, rmt: uint32, proto: Protocol, port: uint16)
    requires Restricted(cfg, ns, rmt, proto)
    ensures ANY_PORT !in OpenPorts(cfg, ns, rmt, proto)
    ensures port in OpenPorts(cfg, ns, rmt, proto) <==>
            Has(InPorts(cfg, ns, rmt, proto), port) && Has(EgPorts(cfg, ns, rmt, proto), port)
  {
  }

  /** Rules that survive the cleanup rank below the explicit rules for the host. */
  lemma KeptRanksBelow(cfg: Config, ns: uint32, rmt: uint32, q: Query, r: Rule)
    requires ns in cfg && Restricted(cfg, ns, rmt, q.proto) && q.addr == cfg[rmt].ip
    requires r in Kept(cfg, ns, AllDone(cfg), cfg[ns].ingress) && Hits(r, q)
    ensures Rank(r) < 2 * |q.addr|
  {
    HostRuleHits(r, q);
    KeptMember(cfg, ns, AllDone(cfg), cfg[ns].ingress, r);
  }

  lemma RestrictedLookup(name: Naming, cfg: Config, ns: uint32, rules: seq<Rule>, added: seq<Rule>, rmt: uint32, q: Query)
    requires IsCombined(name, cfg, ns, rules, added) && DistinctIPs(cfg)
    requires Restricted(cfg, ns, rmt, q.proto) && q.addr == cfg[rmt].ip
    ensures LookupPermits(rules, q) <==> q.port in OpenPorts(cfg, ns, rmt, q.proto)
  {
    hide Best, OpenPorts, InPorts, EgPorts;
    var kept := Kept(cfg, ns, AllDone(cfg), cfg[ns].ingress);
    var deny := DenyRest(name, cfg, ns, rmt, q.proto);
    OpenPortsMeaning(cfg, ns, rmt, q.proto, q.port);
    assert rmt in AllDone(cfg).Of(q.proto) && IsRuleFor(name, cfg, ns, rmt, q.proto, deny);
    assert IsNew(name, cfg, ns, AllDone(cfg), deny);
    assert deny in rules && Hits(deny, q);
    BestIsBest(rules, q);
    var best := Best(rules, q).value;
    assert Rank(best) >= Rank(deny) == 2 * |q.addr|;
    forall r | r in kept && Hits(r, q) ensures Rank(r) < 2 * |q.addr| {
      KeptRanksBelow(cfg, ns, rmt, q, r);
    }
    assert best in added && IsNew(name, cfg, ns, AllDone(cfg), best);
    var x :| x in AllDone(cfg).Of(best.proto) && Restricted(cfg, ns, x, best.proto) && IsRuleFor(name, cfg, ns, x, best.proto, best);
    assert best.dest == OneHost(cfg[x].ip);
    assert x == rmt;
    if q.port in OpenPorts(cfg, ns, rmt, q.proto) {
      var permit := PermitPort(name, cfg, ns, rmt, q.proto, q.port);
      assert IsRuleFor(name, cfg, ns, rmt, q.proto, permit);
      assert IsNew(name, cfg, ns, AllDone(cfg), permit);
      assert permit in rules && Hits(permit, q);
      assert Rank(best) >= Rank(permit) == 2 * |q.addr| + 1;
    }
  }

  // ----- Main theorem -----

  lemma PairUnrestricted(cfg: Config, ns: uint32, rmt: uint32, p: Packet)
    requires WellShaped(cfg) && ns in cfg && rmt in cfg && ns != rmt
    requires p.src == cfg[ns].ip && p.dest == cfg[rmt].ip && !Restricted(cfg, ns, rmt, p.proto)
    ensures Permits(cfg[ns].ingress, p) ==> Permits(cfg[rmt].egress, p)
  {
    ShapePermits(false, cfg[ns].ingress, p, cfg[rmt].ip);
    ShapePermits(true, cfg[rmt].egress, p, cfg[ns].ip);
  }

  lemma PairRestricted(cfg: Config, ns: uint32, rmt: uint32, p: Packet)
    requires WellShaped(cfg) && Restricted(cfg, ns, rmt, p.proto)
    requires p.src == cfg[ns].ip && p.dest == cfg[rmt].ip
    ensures p.destPort in OpenPorts(cfg, ns, rmt, p.proto) <==>
            Permits(cfg[ns].ingress, p) && Permits(cfg[rmt].egress, p)
  {
    OpenPortsMeaning(cfg, ns, rmt, p.proto, p.destPort);
    ShapePermits(false, cfg[ns].ingress, p, cfg[rmt].ip);
    ShapePermits(true, cfg[rmt].egress, p, cfg[ns].ip);
  }

  lemma UntouchedPermits(name: Naming, cfg: Config, ns: uint32, rules: seq<Rule>, added: seq<Rule>, p: Packet)
    requires WellShaped(cfg) && IsCombined(name, cfg, ns, rules, added)
    requires Untouched(cfg, ns, Query(p.dest, p.proto, p.destPort))
    ensures LookupPermits(rules, Query(p.dest, p.proto, p.destPort)) <==> Permits(cfg[ns].ingress, p)
  {
    var q := Query(p.dest, p.proto, p.destPort);
    UntouchedLookup(name, cfg, ns, rules, added, q);
    ShapeLookup(cfg[ns].ingress, q);
    AllowedPortsHit(cfg[ns].ingress, q);
    ShapePermits(false, cfg[ns].ingress, p, p.dest);
  }

  /** Between two pods of the host, the combined rules of the source permit a connection if and
      only if its own ingress list and the egress list of the destination both permit it. */
  lemma CombinedBetweenPods(name: Naming, cfg: Config, ns: uint32, rules: seq<Rule>, added: seq<Rule>, rmt: uint32, p: Packet)
    requires WellShaped(cfg) && IsCombined(name, cfg, ns, rules, added) && rmt in cfg && rmt != ns
    requires p.src == cfg[ns].ip && p.dest == cfg[rmt].ip
    ensures LookupPermits(rules, Query(p.dest, p.proto, p.destPort)) <==>
            Permits(cfg[ns].ingress, p) && Permits(cfg[rmt].egress, p)
  {
    var q := Query(p.dest, p.proto, p.destPort);
    if Restricted(cfg, ns, rmt, p.proto) {
      RestrictedLookup(name, cfg, ns, rules, added, rmt, q);
      PairRestricted(cfg, ns, rmt, p);
    } else {
      UntouchedPermits(name, cfg, ns, rules, added, p);
      PairUnrestricted(cfg, ns, rmt, p);
    }
  }

  /** Towards an address of no other pod of the host, nothing changes. */
  lemma CombinedToOthers(name: Naming, cfg: Config, ns: uint32, rules: seq<Rule>, added: seq<Rule>, p: Packet)
    requires WellShaped(cfg) && IsCombined(name, cfg, ns, rules, added)
    requires forall rmt :: rmt in cfg && rmt != ns ==> cfg[rmt].ip != p.dest
    ensures Best(rules, Query(p.dest, p.proto, p.destPort)) == Best(cfg[ns].ingress, Query(p.dest, p.proto, p.destPort))
    ensures LookupPermits(rules, Query(p.dest, p.proto, p.destPort)) <==> Permits(cfg[ns].ingress, p)
  {
    UntouchedLookup(name, cfg, ns, rules, added, Query(p.dest, p.proto, p.destPort));
    UntouchedPermits(name, cfg, ns, rules, added, p);
  }

  // ----- When rules are folded in -----

  /** Some port of the remote pod is open by the list of the source and closed by that of the pod. */
  ghost predicate TakesAway(cfg: Config, ns: uint32, rmt: uint32, proto: Protocol)
    requires ns in cfg && rmt in cfg
  {
    exists port: uint16 ::
      var p := Packet(cfg[ns].ip, cfg[rmt].ip, proto, 0, port);
      Permits(cfg[ns].ingress, p) && !Permits(cfg[rmt].egress, p)
  }

  /** Rules are folded in for another pod exactly if its egress list takes away from what the
      ingress list of the source permits. */
  lemma RestrictedIff(cfg: Config, ns: uint32, rmt: uint32, proto: Protocol)
    requires WellShaped(cfg) && ns in cfg && rmt in cfg && ns != rmt
    ensures Restricted(cfg, ns, rmt, proto) <==> TakesAway(cfg, ns, rmt, proto)
  {
    hide Permits, InPorts, EgPorts, WellShaped;
    if Restricted(cfg, ns, rmt, proto) {
      var port := LostPort(InPorts(cfg, ns, rmt, proto), EgPorts(cfg, ns, rmt, proto));
      var p := Packet(cfg[ns].ip, cfg[rmt].ip, proto, 0, port);
      PairRestricted(cfg, ns, rmt, p);
      PairPermits(cfg, ns, rmt, p);
      assert Permits(cfg[ns].ingress, p) && !Permits(cfg[rmt].egress, p);
    } else if TakesAway(cfg, ns, rmt, proto) {
      var port: uint16 :| var p := Packet(cfg[ns].ip, cfg[rmt].ip, proto, 0, port);
                          Permits(cfg[ns].ingress, p) && !Permits(cfg[rmt].egress, p);
      PairUnrestricted(cfg, ns, rmt, Packet(cfg[ns].ip, cfg[rmt].ip, proto, 0, port));
    }
  }

  lemma PairPermits(cfg: Config, ns: uint32, rmt: uint32, p: Packet)
    requires WellShaped(cfg) && Restricted(cfg, ns, rmt, p.proto) && p.src == cfg[ns].ip && p.dest == cfg[rmt].ip
    ensures Permits(cfg[ns].ingress, p) <==> Has(InPorts(cfg, ns, rmt, p.proto), p.destPort)
    ensures Permits(cfg[rmt].egress, p) <==> Has(EgPorts(cfg, ns, rmt, p.proto), p.destPort)
  {
    ShapePermits(false, cfg[ns].ingress, p, cfg[rmt].ip);
    ShapePermits(true, cfg[rmt].egress, p, cfg[ns].ip);
  }

  lemma LostPort(p: Ports, p2: Ports) returns (port: uint16)
    requires !Within(p, p2)
    ensures Has(p, port) && !Has(p2, port)
  {
    if ANY_PORT in p {
      port := ANY_PORT;
    } else {
      port :| port in p && port !in p2;
    }
  }

  /** If no other pod takes anything away, the list is left as it is. */
  lemma NothingFolded(name: Naming, cfg: Config, ns: uint32, rules: seq<Rule>, added: seq<Rule>)
    requires WellShaped(cfg) && IsCombined(name, cfg, ns, rules, added)
    requires forall rmt, proto :: rmt in cfg && rmt != ns ==> !TakesAway(cfg, ns, rmt, proto)
    ensures rules == cfg[ns].ingress
  {
    hide WellShaped, TakesAway;
    forall rmt, proto ensures !Restricted(cfg, ns, rmt, proto) {
      if rmt in cfg && rmt != ns { RestrictedIff(cfg, ns, rmt, proto); }
    }
    hide Restricted;
    NothingDropped(cfg, ns, cfg[ns].ingress);
    SomeMember(added);
  }

  lemma SomeMember(rules: seq<Rule>)
    ensures rules != [] ==> exists r :: r in rules
  {
    if rules != [] { assert rules[0] in rules; }
  }

  lemma {:induction false} NothingDropped(cfg: Config, ns: uint32, rules: seq<Rule>)
    requires forall rmt, proto :: !Restricted(cfg, ns, rmt, proto)
    ensures Kept(cfg, ns, AllDone(cfg), rules) == rules
  {
    hide Restricted;
    if rules != [] {
      NothingDropped(cfg, ns, rules[..|rules| - 1]);
      assert rules == rules[..|rules| - 1] + [rules[|rules| - 1]];
    }
  }
}
