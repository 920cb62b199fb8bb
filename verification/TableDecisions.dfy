/** End-to-end decisions of the session tables of a host: local tables for connections opened
    by a pod, the global table for connections arriving at a pod. */
module TableDecisions {
  import opened Base
  import opened Net
  import opened Rules
  import opened SessionRules
  import opened CombinedRules
  import opened CombinedDecisions
  import opened Conversion
  import opened TableSpec
  import opened TableLookup

  // ----- Some combined list exists -----

  ghost function SetToSeq<T(!new)>(s: set<T>): (q: seq<T>)
    ensures forall x :: x in q <==> x in s
  {
    if s == {} then []
    else
      var x :| x in s;
      SetToSeq(s - {x}) + [x]
  }

  function NewRules(name: Naming, cfg: Config, ns: uint32, proto: Protocol): set<Rule>
    requires ns in cfg
  {
    (set rmt, port | rmt in cfg && Restricted(cfg, ns, rmt, proto) && port in OpenPorts(cfg, ns, rmt, proto)
       :: PermitPort(name, cfg, ns, rmt, proto, port)) +
    (set rmt | rmt in cfg && Restricted(cfg, ns, rmt, proto) :: DenyRest(name, cfg, ns, rmt, proto))
  }

  lemma CombinedExists(name: Naming, cfg: Config, ns: uint32) returns (rules: seq<Rule>, added: seq<Rule>)
    requires ns in cfg
    ensures IsCombined(name, cfg, ns, rules, added)
  {
    hide Restricted, OpenPorts;
    var all := NewRules(name, cfg, ns, TCP) + NewRules(name, cfg, ns, UDP);
    added := SetToSeq(all);
    rules := KeptAll(cfg, ns) + added;
    forall r ensures r in all <==> IsNew(name, cfg, ns, AllDone(cfg), r) {
      if r in all {
        var proto :| r in NewRules(name, cfg, ns, proto);
        assert r.proto == proto;
        if r.action == ActionDeny {
          var rmt :| rmt in cfg && Restricted(cfg, ns, rmt, proto) && r == DenyRest(name, cfg, ns, rmt, proto);
          assert IsRuleFor(name, cfg, ns, rmt, proto, r) && rmt in AllDone(cfg).Of(proto);
        } else {
          var rmt, port :| rmt in cfg && Restricted(cfg, ns, rmt, proto) && port in OpenPorts(cfg, ns, rmt, proto)
                           && r == PermitPort(name, cfg, ns, rmt, proto, port);
          assert IsRuleFor(name, cfg, ns, rmt, proto, r) && rmt in AllDone(cfg).Of(proto);
        }
      }
      if IsNew(name, cfg, ns, AllDone(cfg), r) {
        var rmt := NewRuleHost(name, cfg, ns, r);
        assert r in NewRules(name, cfg, ns, r.proto);
      }
    }
  }

  // ----- Votes of the combined list -----

  lemma CombinedOneSided(name: Naming, cfg: Config, ns: uint32, rules: seq<Rule>, added: seq<Rule>)
    requires IsCombined(name, cfg, ns, rules, added) && OneSided(false, cfg[ns].ingress)
    ensures OneSided(false, rules)
  {
    hide Restricted, OpenPorts;
    forall i | 0 <= i < |rules| ensures rules[i].src.AnyNet? && rules[i].srcPort == 0 {
      var r := rules[i];
      if r in KeptAll(cfg, ns) {
        KeptMember(cfg, ns, AllDone(cfg), cfg[ns].ingress, r);
      } else {
        assert r in added;
        var rmt := NewRuleHost(name, cfg, ns, r);
      }
    }
  }

  lemma UntouchedVotes(name: Naming, cfg: Config, ns: uint32, rules: seq<Rule>, added: seq<Rule>, q: Query)
    requires IsCombined(name, cfg, ns, rules, added) && Untouched(cfg, ns, q)
    ensures RuleVotes(false, rules, q) == RuleVotes(false, cfg[ns].ingress, q)
  {
    hide Restricted, OpenPorts, RuleVote, IsAllowAll;
    forall r | r in added ensures !RuleHits(false, r, q) {
      var rmt := NewRuleHost(name, cfg, ns, r);
      assert cfg[rmt].ip != q.addr || r.proto != q.proto;
    }
    forall r | RuleHits(false, r, q) ensures r in rules <==> r in cfg[ns].ingress {
      KeptMember(cfg, ns, AllDone(cfg), cfg[ns].ingress, r);
      HostRuleHits(r, q);
      assert forall rmt :: rmt in cfg && Restricted(cfg, ns, rmt, r.proto) ==> !IsHostRule(r, r.proto, cfg[rmt].ip);
    }
  }

  lemma RestrictedVoteBound(name: Naming, cfg: Config, ns: uint32, rules: seq<Rule>, added: seq<Rule>, rmt: uint32, q: Query, r: Rule)
    requires IsCombined(name, cfg, ns, rules, added) && DistinctIPs(cfg) && rmt in cfg
    requires Restricted(cfg, ns, rmt, q.proto) && q.addr == cfg[rmt].ip
    requires r in rules && RuleHits(false, r, q) && r.action == ActionPermit
    ensures RuleVote(false, r).rank < 2 * |q.addr| || q.port in OpenPorts(cfg, ns, rmt, q.proto)
  {
    hide Restricted, OpenPorts;
    if r in KeptAll(cfg, ns) {
      KeptRanksBelow(cfg, ns, rmt, q, r);
    } else {
      assert r in added;
      var x := NewRuleHost(name, cfg, ns, r);
      assert x == rmt;
      OpenPortsMeaning(cfg, ns, rmt, q.proto, q.port);
    }
  }

  lemma RestrictedVotes(name: Naming, cfg: Config, ns: uint32, rules: seq<Rule>, added: seq<Rule>, rmt: uint32, q: Query)
    requires IsCombined(name, cfg, ns, rules, added) && DistinctIPs(cfg) && rmt in cfg
    requires Restricted(cfg, ns, rmt, q.proto) && q.addr == cfg[rmt].ip
    ensures PermitWins(RuleVotes(false, rules, q)) <==> q.port in OpenPorts(cfg, ns, rmt, q.proto)
  {
    hide Restricted, OpenPorts;
    var votes, w := RuleVotes(false, rules, q), |q.addr|;
    var deny := DenyRest(name, cfg, ns, rmt, q.proto);
    assert rmt in AllDone(cfg).Of(q.proto) && IsRuleFor(name, cfg, ns, rmt, q.proto, deny);
    assert IsNew(name, cfg, ns, AllDone(cfg), deny) && deny in rules;
    assert RuleVote(false, deny) == Vote(false, 2 * w) && Vote(false, 2 * w) in votes;
    OpenPortsMeaning(cfg, ns, rmt, q.proto, q.port);
    if q.port in OpenPorts(cfg, ns, rmt, q.proto) {
      var permit := PermitPort(name, cfg, ns, rmt, q.proto, q.port);
      assert IsRuleFor(name, cfg, ns, rmt, q.proto, permit);
      assert IsNew(name, cfg, ns, AllDone(cfg), permit) && permit in rules;
      assert RuleVote(false, permit) == Vote(true, 2 * w + 1) && Vote(true, 2 * w + 1) in votes;
      forall d | d in votes && !d.permit ensures d.rank <= 2 * w + 1 {
        var r :| r in rules && RuleHits(false, r, q) && !IsAllowAll(false, r) && d == RuleVote(false, r);
        RankBound(r, q);
      }
      assert Tops(votes, Vote(true, 2 * w + 1));
    } else {
      forall v | v in votes && v.permit ensures !Tops(votes, v) {
        var r :| r in rules && RuleHits(false, r, q) && !IsAllowAll(false, r) && v == RuleVote(false, r);
        RestrictedVoteBound(name, cfg, ns, rules, added, rmt, q, r);
      }
    }
  }

  lemma RankBound(r: Rule, q: Query)
    requires RuleHits(false, r, q) && IsAddress(q.addr)
    ensures RuleVote(false, r).rank <= 2 * |q.addr| + 1
  {
  }

  // ----- Local tables -----

  lemma IngressUniform(tag: Tagging, ns: uint32, rules: seq<Rule>)
    ensures Uniform(IngressRules(tag, ns, rules), ns, 2)
  {
    hide FlatMap, IngressOne;
    forall s | s in IngressRules(tag, ns, rules)
      ensures s.appnsIndex == ns && s.scope == 2 && s.actionIndex in {0xFFFF_FFFD, 0xFFFF_FFFE}
    {
      FlatMapMember(IngressOf(tag, ns), rules, s);
      var r :| r in rules && s in IngressOf(tag, ns)(r);
      IngressMarks(tag, ns, r, s);
    }
  }

  lemma IngressMarks(tag: Tagging, ns: uint32, r: Rule, s: SessionRule)
    requires s in IngressOne(tag, ns, r)
    ensures s.appnsIndex == ns && s.scope == 2 && s.actionIndex in {0xFFFF_FFFD, 0xFFFF_FFFE}
  {
  }

  lemma LocalTableVotes(names: Names, cfg: Config, ns: uint32, rules: seq<Rule>, added: seq<Rule>, table: seq<SessionRule>,
                        lcl: Address, a: Address, proto: Protocol, port: uint16)
    requires WellShaped(cfg) && IsCombined(names.combined, cfg, ns, rules, added) && IsLocalTable(names, cfg, ns, table)
    ensures TablePermits(table, Outgoing(ns, lcl, a, proto, port)) <==> PermitWins(RuleVotes(false, rules, Query(a, proto, port)))
  {
    hide TablePermits, PermitWins, RuleVotes, SessionVotes, InLocal, InsertAll, IngressRules, Outgoing;
    var c, sessions := Outgoing(ns, lcl, a, proto, port), IngressRules(names.tag, ns, rules);
    LocalTableBuilt(names, cfg, ns, rules, added);
    TablesUnique(names, cfg, ns, table, InsertAll([], sessions));
    IngressUniform(names.tag, ns, rules);
    InsertAllMembers(sessions);
    forall s | s in table ensures s in sessions { assert IsFirst(sessions, s); }
    SortedLookup(table, ns, 2, c);
    InsertedVotes(sessions, c);
    CombinedOneSided(names.combined, cfg, ns, rules, added);
    IngressVotes(names.tag, ns, rules, lcl, a, proto, port);
  }

  /** What the policies of both ends want for a connection opened by a pod: its own ingress
      list permits it and, if it goes to another pod of the host, that pod's egress list too. */
  ghost predicate BothPermit(cfg: Config, ns: uint32, p: Packet)
    requires ns in cfg
  {
    && Permits(cfg[ns].ingress, p)
    && forall rmt :: rmt in cfg && rmt != ns && cfg[rmt].ip == p.dest ==> Permits(cfg[rmt].egress, p)
  }

  /** The local table decides a connection with rules made for its destination. */
  ghost predicate HasOwnRules(cfg: Config, ns: uint32, q: Query) {
    !Untouched(cfg, ns, q)
  }

  lemma UntouchedWanted(cfg: Config, ns: uint32, p: Packet)
    requires WellShaped(cfg) && ns in cfg && p.src == cfg[ns].ip
    requires Untouched(cfg, ns, Query(p.dest, p.proto, p.destPort))
    ensures BothPermit(cfg, ns, p) <==> Permits(cfg[ns].ingress, p)
  {
    hide Permits, Restricted;
    forall rmt | rmt in cfg && rmt != ns && cfg[rmt].ip == p.dest
      ensures Permits(cfg[ns].ingress, p) ==> Permits(cfg[rmt].egress, p)
    {
      PairUnrestricted(cfg, ns, rmt, p);
    }
  }

  lemma RestrictedWanted(cfg: Config, ns: uint32, rmt: uint32, p: Packet)
    requires WellShaped(cfg) && Restricted(cfg, ns, rmt, p.proto)
    requires p.src == cfg[ns].ip && p.dest == cfg[rmt].ip
    ensures p.destPort in OpenPorts(cfg, ns, rmt, p.proto) <==> BothPermit(cfg, ns, p)
  {
    hide Permits, OpenPorts;
    PairRestricted(cfg, ns, rmt, p);
    assert forall x :: x in cfg && cfg[x].ip == p.dest ==> x == rmt;
  }

  /** The local table of a pod permits a connection if and only if both ends permit it, except
      when the ingress list is starved and no rules were made for the destination; even then the
      table never permits more than both ends do. */
  lemma LocalTableDecision(names: Names, cfg: Config, ns: uint32, table: seq<SessionRule>, lcl: Address, p: Packet)
    requires WellShaped(cfg) && ns in cfg && IsLocalTable(names, cfg, ns, table)
    requires p.src == cfg[ns].ip && IsAddress(p.dest)
    ensures var q := Query(p.dest, p.proto, p.destPort);
            var permits := TablePermits(table, Outgoing(ns, lcl, p.dest, p.proto, p.destPort));
            && ((permits <==> BothPermit(cfg, ns, p)) <==> HasOwnRules(cfg, ns, q) || !Starved(false, cfg[ns].ingress, q))
            && (permits ==> BothPermit(cfg, ns, p))
  {
    hide TablePermits, PermitWins, RuleVotes, BothPermit, Starved, Restricted, OpenPorts, Outgoing, IsLocalTable, Permits;
    var q := Query(p.dest, p.proto, p.destPort);
    var rules, added := CombinedExists(names.combined, cfg, ns);
    LocalTableVotes(names, cfg, ns, rules, added, table, lcl, p.dest, p.proto, p.destPort);
    if HasOwnRules(cfg, ns, q) {
      var rmt :| rmt in cfg && Restricted(cfg, ns, rmt, q.proto) && cfg[rmt].ip == q.addr;
      RestrictedVotes(names.combined, cfg, ns, rules, added, rmt, q);
      RestrictedWanted(cfg, ns, rmt, p);
    } else {
      UntouchedVotes(names.combined, cfg, ns, rules, added, q);
      UntouchedWanted(cfg, ns, p);
      ShapedInstalled(false, cfg[ns].ingress, p, q);
    }
  }

  // ----- Global table -----

  /** The rules of a pod can be encoded for it, and no rule of another pod leaks to it. */
  ghost predicate Isolated(cfg: Config, b: uint32)
    requires b in cfg
  {
    && AllEncodable(cfg[b].ip, cfg[b].egress)
    && forall x, r :: x in cfg && r in cfg[x].egress ==> !Leaks(cfg[x].ip, r, cfg[b].ip)
  }

  /** Only the rules of the pod itself match what arrives at it. */
  lemma EgressOwnOnly(tag: Tagging, cfg: Config, x: uint32, b: uint32, r: Rule, s: SessionRule, a: Address,
                      proto: Protocol, srcPort: uint16, port: uint16)
    requires DistinctIPs(cfg) && x in cfg && b in cfg && Isolated(cfg, b) && |a| == |cfg[b].ip|
    requires r in cfg[x].egress && s in EgressOne(tag, x, cfg[x].ip, r)
    requires SessionHits(s, Incoming(cfg[b].ip, a, proto, srcPort, port))
    ensures x == b
  {
    EgressOwnAddress(tag, x, cfg[x].ip, r, s, cfg[b].ip, Incoming(cfg[b].ip, a, proto, srcPort, port));
  }

  lemma EgressUniform(names: Names, cfg: Config, table: seq<SessionRule>)
    requires IsGlobalTable(names, cfg, table)
    ensures Uniform(table, 0, 1)
  {
    hide FlatMap, EgressOne;
    forall s | s in table
      ensures s.appnsIndex == 0 && s.scope == 1 && s.actionIndex in {0xFFFF_FFFD, 0xFFFF_FFFE}
    {
      var ns :| ns in cfg && IsFirst(EgressRules(names.tag, ns, cfg[ns].ip, cfg[ns].egress), s);
      FlatMapMember(EgressOf(names.tag, ns, cfg[ns].ip), cfg[ns].egress, s);
      var r :| r in cfg[ns].egress && s in EgressOf(names.tag, ns, cfg[ns].ip)(r);
      EgressMarks(names.tag, ns, cfg[ns].ip, r, s);
    }
  }

  lemma EgressMarks(tag: Tagging, ns: uint32, ip: Address, r: Rule, s: SessionRule)
    requires s in EgressOne(tag, ns, ip, r)
    ensures s.appnsIndex == 0 && s.scope == 1 && s.actionIndex in {0xFFFF_FFFD, 0xFFFF_FFFE}
  {
  }

  lemma GlobalTableVotes(names: Names, cfg: Config, table: seq<SessionRule>, b: uint32, a: Address,
                         proto: Protocol, srcPort: uint16, port: uint16)
    requires DistinctIPs(cfg) && IsGlobalTable(names, cfg, table) && b in cfg && Isolated(cfg, b) && |a| == |cfg[b].ip|
    ensures SessionVotes(table, Incoming(cfg[b].ip, a, proto, srcPort, port)) ==
            SessionVotes(EgressRules(names.tag, b, cfg[b].ip, cfg[b].egress), Incoming(cfg[b].ip, a, proto, srcPort, port))
  {
    hide SessionHits, VoteOf, Incoming, InsertAll;
    var c := Incoming(cfg[b].ip, a, proto, srcPort, port);
    var own := EgressRules(names.tag, b, cfg[b].ip, cfg[b].egress);
    forall s | s in table && SessionHits(s, c) ensures s in own {
      var ns :| ns in cfg && IsFirst(EgressRules(names.tag, ns, cfg[ns].ip, cfg[ns].egress), s);
      FlatMapMember(EgressOf(names.tag, ns, cfg[ns].ip), cfg[ns].egress, s);
      var r :| r in cfg[ns].egress && s in EgressOf(names.tag, ns, cfg[ns].ip)(r);
      EgressOwnOnly(names.tag, cfg, ns, b, r, s, a, proto, srcPort, port);
    }
    InsertAllMembers(own);
    InsertedVotes(own, c);
    forall s | s in InsertAll([], own) ensures s in table { assert InGlobal(names, cfg, s); }
    assert SessionVotes(InsertAll([], own), c) <= SessionVotes(table, c) <= SessionVotes(own, c);
  }

  /** The global table permits a connection arriving at a pod if and only if the egress list of
      the pod permits it, except when that list is starved; it never permits more. */
  lemma GlobalTableDecision(names: Names, cfg: Config, table: seq<SessionRule>, b: uint32, p: Packet)
    requires WellShaped(cfg) && IsGlobalTable(names, cfg, table) && b in cfg && Isolated(cfg, b)
    requires p.dest == cfg[b].ip && |p.src| == |p.dest|
    ensures var q := Query(p.src, p.proto, p.destPort);
            var permits := TablePermits(table, Incoming(cfg[b].ip, p.src, p.proto, p.srcPort, p.destPort));
            && ((permits <==> Permits(cfg[b].egress, p)) <==> !Starved(true, cfg[b].egress, q))
            && (permits ==> Permits(cfg[b].egress, p))
  {
    hide TablePermits, PermitWins, RuleVotes, SessionVotes, Starved, Incoming, IsGlobalTable, Permits, EgressRules,
         Uniform, Leaks, AllEncodable;
    var q := Query(p.src, p.proto, p.destPort);
    GlobalTableVotes(names, cfg, table, b, p.src, p.proto, p.srcPort, p.destPort);
    EgressVotes(names.tag, b, cfg[b].ip, cfg[b].egress, p.src, p.proto, p.srcPort, p.destPort);
    EgressUniform(names, cfg, table);
    GlobalSorted(names, cfg, table);
    SortedLookup(table, 0, 1, Incoming(cfg[b].ip, p.src, p.proto, p.srcPort, p.destPort));
    ShapedInstalled(true, cfg[b].egress, p, q);
  }

  lemma GlobalSorted(names: Names, cfg: Config, table: seq<SessionRule>)
    requires IsGlobalTable(names, cfg, table)
    ensures Sorted(table)
  {
  }
}
