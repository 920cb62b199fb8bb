/** Contiv rules (plugins/policy/renderer/api.go), their total order, and the first-match
    evaluation of a rule list (mock/renderer/renderer_mock.go). */
module Rules {
  import opened Base
  import opened Net

  datatype Action = ActionDeny | ActionPermit

  datatype Protocol = TCP | UDP

  type Network = n: IPNet | WellFormed(n) witness AnyNet

  datatype Rule = ContivRule(
    id: string,
    action: Action,
    src: Network,       // AnyNet = match all
    dest: Network,      // AnyNet = match all
    proto: Protocol,
    srcPort: uint16,    // 0 = match all
    destPort: uint16)   // 0 = match all

  /** Rules of one list that have the same ID are the same rule. */
  predicate IDsDistinct(rules: seq<Rule>) {
    forall x, y :: x in rules && y in rules && x.id == y.id ==> x == y
  }

  datatype Packet = Packet(src: Bits, dest: Bits, proto: Protocol, srcPort: uint16, destPort: uint16)

  datatype Verdict = Denied | Allowed | Unmatched

  predicate MatchesNet(n: IPNet, a: Bits) {
    n.AnyNet? || Contains(n, a)
  }

  predicate MatchesPort(rulePort: uint16, port: uint16) {
    rulePort == 0 || rulePort == port
  }

  predicate Matches(r: Rule, p: Packet) {
    && MatchesNet(r.src, p.src)
    && MatchesNet(r.dest, p.dest)
    && r.proto == p.proto
    && MatchesPort(r.srcPort, p.srcPort)
    && MatchesPort(r.destPort, p.destPort)
  }

  /** First match decides; the packet is unmatched if no rule matches. */
  function Evaluate(rules: seq<Rule>, p: Packet): Verdict {
    if rules == [] then Unmatched
    else if Matches(rules[0], p) then
      (if rules[0].action == ActionPermit then Allowed else Denied)
    else Evaluate(rules[1..], p)
  }

  /** The stack allows what no rule matches. */
  predicate Permits(rules: seq<Rule>, p: Packet) {
    Evaluate(rules, p) != Denied
  }

  ghost predicate AllPermit(rules: seq<Rule>) {
    forall r :: r in rules ==> r.action == ActionPermit
  }

  ghost predicate AnyMatches(rules: seq<Rule>, p: Packet) {
    exists r :: r in rules && Matches(r, p)
  }

  lemma {:induction false} EvaluatePermitsThen(rules: seq<Rule>, rest: seq<Rule>, p: Packet)
    requires AllPermit(rules)
    ensures Evaluate(rules + rest, p) == if AnyMatches(rules, p) then Allowed else Evaluate(rest, p)
  {
    if rules == [] {
      assert rules + rest == rest;
    } else {
      assert (rules + rest)[1..] == rules[1..] + rest;
      assert rules == [rules[0]] + rules[1..];
      EvaluatePermitsThen(rules[1..], rest, p);
    }
  }

  // ----- Total order -----

  function IPOf(n: Network): Bits { if n.AnyNet? then [] else n.ip }

  function PlenOf(n: Network): nat { if n.AnyNet? then 0 else n.plen }

  /** utils.CompareIPNets; masks of one length compare like their prefix lengths. */
  function CompareIPNets(a: Network, b: Network): int {
    var ipOrder := Lex(BitKey, IPOf(a), IPOf(b));
    if ipOrder != 0 then ipOrder else CompareInts(PlenOf(a), PlenOf(b))
  }

  function CompareActions(a: Action, b: Action): int {
    CompareInts(if a == ActionDeny then 0 else 1, if b == ActionDeny then 0 else 1)
  }

  function CompareProtocols(a: Protocol, b: Protocol): int {
    CompareInts(if a == TCP then 0 else 1, if b == TCP then 0 else 1)
  }

  /** ContivRule.Compare */
  function Compare(a: Rule, b: Rule): int {
    var idOrder := Lex(CharKey, a.id, b.id);
    if idOrder != 0 then idOrder else
    var actionOrder := CompareActions(a.action, b.action);
    if actionOrder != 0 then actionOrder else
    var srcOrder := CompareIPNets(a.src, b.src);
    if srcOrder != 0 then srcOrder else
    var destOrder := CompareIPNets(a.dest, b.dest);
    if destOrder != 0 then destOrder else
    var protoOrder := CompareProtocols(a.proto, b.proto);
    if protoOrder != 0 then protoOrder else
    var srcPortOrder := CompareInts(a.srcPort, b.srcPort);
    if srcPortOrder != 0 then srcPortOrder else
    CompareInts(a.destPort, b.destPort)
  }

  lemma LexOrder<T(!new)>(key: T -> int, a: seq<T>, b: seq<T>, c: seq<T>)
    requires Injective(key)
    ensures Lex(key, a, b) == -Lex(key, b, a)
    ensures Lex(key, a, b) == 0 <==> a == b
    ensures Lex(key, a, b) <= 0 && Lex(key, b, c) <= 0 ==> Lex(key, a, c) <= 0
  {
    LexAntisymmetric(key, a, b);
    LexZero(key, a, b);
    if Lex(key, a, b) <= 0 && Lex(key, b, c) <= 0 {
      LexTransitive(key, a, b, c);
    }
  }

  lemma IPNetOrder(a: Network, b: Network, c: Network)
    ensures CompareIPNets(a, b) == -CompareIPNets(b, a)
    ensures CompareIPNets(a, b) == 0 <==> a == b
    ensures CompareIPNets(a, b) <= 0 && CompareIPNets(b, c) <= 0 ==> CompareIPNets(a, c) <= 0
  {
    KeysInjective();
    LexOrder(BitKey, IPOf(a), IPOf(b), IPOf(c));
    LexOrder(BitKey, IPOf(b), IPOf(c), IPOf(a));
    LexOrder(BitKey, IPOf(c), IPOf(a), IPOf(b));
  }

  /** ContivRule.Compare is a total order in which only equal rules compare equal. */
  lemma CompareOrder(a: Rule, b: Rule, c: Rule)
    ensures Compare(a, b) == -Compare(b, a)
    ensures Compare(a, b) == 0 <==> a == b
    ensures Compare(a, b) <= 0 && Compare(b, c) <= 0 ==> Compare(a, c) <= 0
  {
    KeysInjective();
    LexOrder(CharKey, a.id, b.id, c.id);
    LexOrder(CharKey, b.id, c.id, a.id);
    LexOrder(CharKey, c.id, a.id, b.id);
    IPNetOrder(a.src, b.src, c.src);
    IPNetOrder(b.src, c.src, a.src);
    IPNetOrder(c.src, a.src, b.src);
    IPNetOrder(a.dest, b.dest, c.dest);
    IPNetOrder(b.dest, c.dest, a.dest);
    IPNetOrder(c.dest, a.dest, b.dest);
  }

  /** The order of the fields: ID, action (deny first), source, destination, protocol (TCP first),
      ports. */
  lemma CompareByField(a: Rule, b: Rule)
    ensures a.id != b.id ==> Compare(a, b) == Lex(CharKey, a.id, b.id)
    ensures a.id == b.id && a.action != b.action ==> (Compare(a, b) < 0 <==> a.action == ActionDeny)
    ensures a.id == b.id && a.action == b.action && a.src != b.src ==> Compare(a, b) == CompareIPNets(a.src, b.src)
    ensures a.(dest := b.dest, proto := b.proto, srcPort := b.srcPort, destPort := b.destPort) == b && a.dest != b.dest ==>
              Compare(a, b) == CompareIPNets(a.dest, b.dest)
    ensures a.(proto := b.proto, srcPort := b.srcPort, destPort := b.destPort) == b && a.proto != b.proto ==>
              (Compare(a, b) < 0 <==> a.proto == TCP)
    ensures a.(srcPort := b.srcPort, destPort := b.destPort) == b && a.srcPort != b.srcPort ==>
              (Compare(a, b) < 0 <==> a.srcPort < b.srcPort)
    ensures a.(destPort := b.destPort) == b ==> (Compare(a, b) < 0 <==> a.destPort < b.destPort)
  {
    hide CompareIPNets;
    KeysInjective();
    LexOrder(CharKey, a.id, b.id, a.id);
    IPNetOrder(a.src, b.src, a.src);
    IPNetOrder(a.dest, b.dest, a.dest);
  }
}
