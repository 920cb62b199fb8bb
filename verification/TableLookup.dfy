/** What the session tables decide, compared with the rule lists they were built from. */
module TableLookup {
  import opened Base
  import opened Net
  import opened Rules
  import opened SessionRules
  import opened CombinedRules
  import opened CombinedDecisions
  import opened Conversion
  import opened TableSpec

  // ----- Lookup in a table -----

  function SessionRank(s: SessionRule): nat {
    2 * s.rmtPlen + (if s.lclPort != 0 || s.rmtPort != 0 then 1 else 0)
  }

  function SessionBest(table: seq<SessionRule>, c: Conn): Option<SessionRule> {
    if table == [] then None
    else
      var best, last := SessionBest(table[..|table| - 1], c), table[|table| - 1];
      if SessionHits(last, c) && (best.None? || SessionRank(last) > SessionRank(best.value)) then Some(last) else best
  }

  /** Longest remote prefix, then an explicit port, then the order of the table; the stack
      allows what no rule matches, and what a rule with action index -3 (allow) matches. */
  predicate TablePermits(table: seq<SessionRule>, c: Conn) {
    var best := SessionBest(table, c);
    best.None? || best.value.actionIndex == 0xFFFF_FFFD
  }

  ghost predicate IsBestAt(table: seq<SessionRule>, c: Conn, k: nat) {
    && k < |table| && SessionHits(table[k], c)
    && (forall i :: 0 <= i < k && SessionHits(table[i], c) ==> SessionRank(table[i]) < SessionRank(table[k]))
    && (forall i :: k < i < |table| && SessionHits(table[i], c) ==> SessionRank(table[i]) <= SessionRank(table[k]))
  }

  lemma SomeHitsSnoc(rules: seq<SessionRule>, s: SessionRule, c: Conn)
    ensures SomeHits(rules + [s], c) <==> SomeHits(rules, c) || SessionHits(s, c)
  {
    if SomeHits(rules, c) {
      var t :| t in rules && SessionHits(t, c);
      assert t in rules + [s];
    }
    assert s in rules + [s];
  }

  lemma {:induction false} SessionBestAt(table: seq<SessionRule>, c: Conn) returns (k: nat)
    ensures SessionBest(table, c).None? <==> !SomeHits(table, c)
    ensures SessionBest(table, c).Some? ==> IsBestAt(table, c, k) && SessionBest(table, c).value == table[k]
  {
    hide SessionHits, SessionRank;
    k := 0;
    if table != [] {
      var init, last := table[..|table| - 1], table[|table| - 1];
      k := SessionBestAt(init, c);
      assert table == init + [last];
      SomeHitsSnoc(init, last, c);
      if SessionHits(last, c) && (SessionBest(init, c).None? || SessionRank(last) > SessionRank(SessionBest(init, c).value)) {
        if SessionBest(init, c).None? {
          assert forall i :: 0 <= i < |init| ==> init[i] in init && !SessionHits(init[i], c);
        }
        k := |table| - 1;
      }
    }
  }

  // ----- Votes -----

  /** What a rule that matches contributes to the decision. */
  datatype Vote = Vote(permit: bool, rank: nat)

  /** No deny rule votes, or some permit rule ranks at least as high as all that do. */
  ghost predicate PermitWins(votes: set<Vote>) {
    (exists v :: v in votes && !v.permit) ==>
      exists v :: v in votes && v.permit && Tops(votes, v)
  }

  ghost predicate Tops(votes: set<Vote>, v: Vote) {
    forall d :: d in votes && !d.permit ==> d.rank <= v.rank
  }

  function VoteOf(s: SessionRule): Vote {
    Vote(s.actionIndex == 0xFFFF_FFFD, SessionRank(s))
  }

  ghost function SessionVotes(rules: seq<SessionRule>, c: Conn): set<Vote> {
    set s | s in rules && SessionHits(s, c) :: VoteOf(s)
  }

  /** All rules of a table have one namespace and scope and either allow (-3) or deny (-2). */
  ghost predicate Uniform(rules: seq<SessionRule>, ns: uint32, scope: uint8) {
    forall s :: s in rules ==> s.appnsIndex == ns && s.scope == scope && s.actionIndex in {0xFFFF_FFFD, 0xFFFF_FFFE}
  }

  lemma AllowSortsFirst(table: seq<SessionRule>, ns: uint32, scope: uint8, i: nat, k: nat)
    requires Sorted(table) && Uniform(table, ns, scope) && i < |table| && k < |table|
    requires table[i].actionIndex == 0xFFFF_FFFD && table[k].actionIndex != 0xFFFF_FFFD
    ensures i < k
  {
    assert table[i] in table && table[k] in table;
    assert CompareScopes(table[k], table[i]) > 0;
  }

  /** In a sorted table allow rules precede deny rules, so they win ties. */
  lemma SortedLookup(table: seq<SessionRule>, ns: uint32, scope: uint8, c: Conn)
    requires Sorted(table) && Uniform(table, ns, scope)
    ensures TablePermits(table, c) <==> PermitWins(SessionVotes(table, c))
  {
    hide SessionHits, SessionRank, CompareSession;
    var k := SessionBestAt(table, c);
    var votes := SessionVotes(table, c);
    if SessionBest(table, c).Some? {
      var best := table[k];
      assert VoteOf(best) in votes;
      forall v | v in votes
        ensures v.rank <= SessionRank(best)
        ensures v.permit && best.actionIndex != 0xFFFF_FFFD ==> v.rank < SessionRank(best)
      {
        var s :| s in table && SessionHits(s, c) && v == VoteOf(s);
        var i :| 0 <= i < |table| && table[i] == s;
        if v.permit && best.actionIndex != 0xFFFF_FFFD {
          AllowSortsFirst(table, ns, scope, i, k);
        }
      }
      if best.actionIndex == 0xFFFF_FFFD {
        assert Tops(votes, VoteOf(best));
      } else {
        assert forall v :: v in votes && v.permit ==> !Tops(votes, v);
      }
    } else {
      assert votes == {};
    }
  }

  lemma TwinVotes(s: SessionRule, t: SessionRule, c: Conn)
    requires EqualUpToTag(s, t)
    ensures SessionHits(s, c) <==> SessionHits(t, c)
    ensures VoteOf(s) == VoteOf(t)
  {
    assert s == t.(tag := s.tag);
  }

  /** Dropping rules that repeat others up to the tag changes no vote. */
  lemma VotesUpToTag(x: seq<SessionRule>, y: seq<SessionRule>, c: Conn)
    requires forall s :: s in x ==> s in y
    requires forall s :: s in y ==> Present(x, s)
    ensures SessionVotes(x, c) == SessionVotes(y, c)
  {
    hide SessionHits, VoteOf, EqualUpToTag;
    forall v | v in SessionVotes(y, c) ensures v in SessionVotes(x, c) {
      var s :| s in y && SessionHits(s, c) && v == VoteOf(s);
      var t :| t in x && EqualUpToTag(t, s);
      TwinVotes(t, s, c);
    }
  }

  lemma InsertedVotes(rules: seq<SessionRule>, c: Conn)
    ensures SessionVotes(InsertAll([], rules), c) == SessionVotes(rules, c)
  {
    hide SessionVotes, InsertAll;
    var table := InsertAll([], rules);
    InsertAllMembers(rules);
    forall s | s in rules ensures Present(table, s) {
      InsertAllPresent(rules, s);
      assert Present(rules, s);
    }
    VotesUpToTag(table, rules, c);
  }

  // ----- The same decision on the level of rules -----

  /** A connection seen from the opposite side of a rule. */
  predicate RuleHits(egress: bool, r: Rule, q: Query) {
    MatchesNet(Opposite(egress, r), q.addr) && r.proto == q.proto && MatchesPort(r.destPort, q.port)
  }

  /** The rank of the session rules of an installed rule: the halves of the all-IPs network
      have prefix length 1. */
  function RuleVote(egress: bool, r: Rule): Vote {
    Vote(r.action == ActionPermit,
         2 * (if Opposite(egress, r).AnyNet? then 1 else Opposite(egress, r).plen) + (if r.destPort != 0 then 1 else 0))
  }

  /** The votes of the rules that are installed. */
  ghost function RuleVotes(egress: bool, rules: seq<Rule>, q: Query): set<Vote> {
    set r | r in rules && RuleHits(egress, r, q) && !IsAllowAll(egress, r) :: RuleVote(egress, r)
  }

  lemma IngressVote(tag: Tagging, ns: uint32, r: Rule, s: SessionRule)
    requires s in IngressOne(tag, ns, r) && r.srcPort == 0
    ensures VoteOf(s) == RuleVote(false, r) && !IsAllowAll(false, r)
  {
  }

  lemma EgressVote(tag: Tagging, ns: uint32, ip: Address, r: Rule, s: SessionRule)
    requires s in EgressOne(tag, ns, ip, r) && r.srcPort == 0
    ensures VoteOf(s) == RuleVote(true, r) && !IsAllowAll(true, r)
  {
  }

  /** Installed ingress rules vote exactly as the rules they come from. */
  lemma IngressVotes(tag: Tagging, ns: uint32, rules: seq<Rule>, lcl: Address, a: Address, proto: Protocol, port: uint16)
    requires OneSided(false, rules)
    ensures SessionVotes(IngressRules(tag, ns, rules), Outgoing(ns, lcl, a, proto, port)) == RuleVotes(false, rules, Query(a, proto, port))
  {
    var q, c, f := Query(a, proto, port), Outgoing(ns, lcl, a, proto, port), IngressOf(tag, ns);
    var sessions := IngressRules(tag, ns, rules);
    forall v | v in SessionVotes(sessions, c) ensures v in RuleVotes(false, rules, q) {
      var s :| s in sessions && SessionHits(s, c) && v == VoteOf(s);
      FlatMapMember(f, rules, s);
      var r :| r in rules && s in f(r);
      IngressVote(tag, ns, r, s);
      IngressOneHits(tag, ns, r, c);
    }
    forall v | v in RuleVotes(false, rules, q) ensures v in SessionVotes(sessions, c) {
      var r :| r in rules && RuleHits(false, r, q) && !IsAllowAll(false, r) && v == RuleVote(false, r);
      IngressOneHits(tag, ns, r, c);
      var s :| s in IngressOne(tag, ns, r) && SessionHits(s, c);
      IngressVote(tag, ns, r, s);
      FlatMapMember(f, rules, s);
      assert s in f(r);
    }
  }

  lemma EgressVotes(tag: Tagging, ns: uint32, ip: Address, rules: seq<Rule>, a: Address, proto: Protocol, srcPort: uint16, port: uint16)
    requires OneSided(true, rules) && AllEncodable(ip, rules) && |a| == |ip|
    ensures SessionVotes(EgressRules(tag, ns, ip, rules), Incoming(ip, a, proto, srcPort, port)) == RuleVotes(true, rules, Query(a, proto, port))
  {
    var q, c, f := Query(a, proto, port), Incoming(ip, a, proto, srcPort, port), EgressOf(tag, ns, ip);
    var sessions := EgressRules(tag, ns, ip, rules);
    forall v | v in SessionVotes(sessions, c) ensures v in RuleVotes(true, rules, q) {
      var s :| s in sessions && SessionHits(s, c) && v == VoteOf(s);
      FlatMapMember(f, rules, s);
      var r :| r in rules && s in f(r);
      EgressVote(tag, ns, ip, r, s);
      EgressOneHits(tag, ns, ip, r, a, proto, srcPort, port);
    }
    forall v | v in RuleVotes(true, rules, q) ensures v in SessionVotes(sessions, c) {
      var r :| r in rules && RuleHits(true, r, q) && !IsAllowAll(true, r) && v == RuleVote(true, r);
      EgressOneHits(tag, ns, ip, r, a, proto, srcPort, port);
      var s :| s in EgressOne(tag, ns, ip, r) && SessionHits(s, c);
      EgressVote(tag, ns, ip, r, s);
      FlatMapMember(f, rules, s);
      assert s in f(r);
    }
  }

  // ----- Shaped lists: when is a permit rule lost? -----

  ghost predicate PermitFor(egress: bool, rules: seq<Rule>, q: Query, r: Rule) {
    r in rules && r.action == ActionPermit && RuleHits(egress, r, q)
  }

  /** A permit rule that still counts against the deny-the-rest rules once installed: not an
      allow-all rule, which is left out, and not a /0 network, which ranks below the halves. */
  predicate Effective(egress: bool, r: Rule) {
    !IsAllowAll(egress, r) && (Opposite(egress, r).Subnet? ==> Opposite(egress, r).plen >= 1)
  }

  ghost predicate SomePermitFor(egress: bool, rules: seq<Rule>, q: Query) {
    exists r :: PermitFor(egress, rules, q, r)
  }

  ghost predicate SomeEffectiveFor(egress: bool, rules: seq<Rule>, q: Query) {
    exists r :: PermitFor(egress, rules, q, r) && Effective(egress, r)
  }

  /** The list denies the rest, some permit rule matches, but none that remains effective. */
  ghost predicate Starved(egress: bool, rules: seq<Rule>, q: Query) {
    HasDeny(rules) && SomePermitFor(egress, rules, q) && !SomeEffectiveFor(egress, rules, q)
  }

  lemma ShapedDenyVotes(egress: bool, rules: seq<Rule>, q: Query)
    requires HasShape(rules)
    ensures HasDeny(rules) ==> Vote(false, 2) in RuleVotes(egress, rules, q)
    ensures forall v :: v in RuleVotes(egress, rules, q) && !v.permit ==> v.rank == 2 && HasDeny(rules)
  {
    if HasDeny(rules) {
      var d := DenyFor(rules, q.proto);
      assert RuleVote(egress, d) == Vote(false, 2) && RuleHits(egress, d, q);
    }
    forall v | v in RuleVotes(egress, rules, q) && !v.permit ensures v.rank == 2 && HasDeny(rules) {
      var d :| d in rules && RuleHits(egress, d, q) && !IsAllowAll(egress, d) && v == RuleVote(egress, d);
      DeniesAreDenyAll(rules, d);
    }
  }

  lemma ShapedVotes(egress: bool, rules: seq<Rule>, q: Query)
    requires HasShape(rules)
    ensures PermitWins(RuleVotes(egress, rules, q)) <==> !HasDeny(rules) || SomeEffectiveFor(egress, rules, q)
  {
    var votes := RuleVotes(egress, rules, q);
    ShapedDenyVotes(egress, rules, q);
    if SomeEffectiveFor(egress, rules, q) {
      var r :| PermitFor(egress, rules, q, r) && Effective(egress, r);
      assert RuleVote(egress, r) in votes && Tops(votes, RuleVote(egress, r));
    }
    if HasDeny(rules) && PermitWins(votes) {
      assert Vote(false, 2) in votes;
      var v :| v in votes && v.permit && Tops(votes, v);
      var r :| r in rules && RuleHits(egress, r, q) && !IsAllowAll(egress, r) && v == RuleVote(egress, r);
      assert PermitFor(egress, rules, q, r) && Effective(egress, r);
    }
  }

  lemma ShapedPermits(egress: bool, rules: seq<Rule>, p: Packet, q: Query)
    requires HasShape(rules) && OneSided(egress, rules)
    requires Fits(egress, p, q.addr) && q.proto == p.proto && q.port == p.destPort
    ensures Permits(rules, p) <==> !HasDeny(rules) || SomePermitFor(egress, rules, q)
  {
    ShapePermits(egress, rules, p, q.addr);
    var ports := AllowedPorts(egress, q.addr, rules, q.proto);
    if Has(ports, q.port) {
      var port :| port in ports && MatchesPort(port, q.port);
      var r :| r in rules && AllowsFor(egress, r, q.addr, q.proto) && r.destPort == port;
      assert PermitFor(egress, rules, q, r);
    }
    if SomePermitFor(egress, rules, q) {
      var r :| PermitFor(egress, rules, q, r);
      assert AllowsFor(egress, r, q.addr, q.proto) && r.destPort in ports;
    }
  }

  /** Once installed, a shaped list decides as its first match does if and only if it is not
      starved for the connection; it never permits more. */
  lemma ShapedInstalled(egress: bool, rules: seq<Rule>, p: Packet, q: Query)
    requires HasShape(rules) && OneSided(egress, rules)
    requires Fits(egress, p, q.addr) && q.proto == p.proto && q.port == p.destPort
    ensures (PermitWins(RuleVotes(egress, rules, q)) <==> Permits(rules, p)) <==> !Starved(egress, rules, q)
    ensures PermitWins(RuleVotes(egress, rules, q)) ==> Permits(rules, p)
  {
    ShapedVotes(egress, rules, q);
    ShapedPermits(egress, rules, p, q);
  }
}
