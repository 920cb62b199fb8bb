/** The texts that identify rules (plugins/policy/configurator/configurator_impl.go,
    plugins/policy/renderer/vpptcp/cache/cache_impl.go). */
module RuleIDs {
  import opened Base
  import opened Net
  import opened Rules
  import opened Policies

  datatype Peer = AnyPeer | PodPeer(pod: PodID) | SubnetPeer(subnet: Prefix)

  // ----- Numbers -----

  function Digit(n: nat): (c: char)
    requires n < 10
    ensures '0' <= c <= '9' && c as int == '0' as int + n
  {
    '0' + n as char
  }

  /** strconv.Itoa */
  function Digits(n: nat): string {
    if n < 10 then [Digit(n)] else Digits(n / 10) + [Digit(n % 10)]
  }

  predicate AllDigits(s: string) {
    forall c :: c in s ==> '0' <= c <= '9'
  }

  lemma {:induction false} DigitsOnly(n: nat)
    ensures AllDigits(Digits(n)) && |Digits(n)| >= 1
    ensures |Digits(n)| == 1 <==> n < 10
  {
    if n >= 10 { DigitsOnly(n / 10); }
  }

  lemma {:induction false} DigitsInjective(m: nat, n: nat)
    requires Digits(m) == Digits(n)
    ensures m == n
  {
    var s, t := Digits(m), Digits(n);
    DigitsOnly(m);
    DigitsOnly(n);
    assert s[|s| - 1] == Digit(m % 10) && t[|t| - 1] == Digit(n % 10);
    if m >= 10 {
      assert s[..|s| - 1] == Digits(m / 10) && t[..|t| - 1] == Digits(n / 10);
      DigitsInjective(m / 10, n / 10);
    }
  }

  // ----- Networks -----

  function BitText(b: bool): char { if b then '1' else '0' }

  function PlainText(n: Prefix): string {
    seq(|n.ip|, k requires 0 <= k < |n.ip| => BitText(n.ip[k])) + "/" + Digits(n.plen)
  }

  lemma PlainTextInjective(m: Prefix, n: Prefix)
    requires PlainText(m) == PlainText(n)
    ensures m == n
  {
    var x := seq(|m.ip|, k requires 0 <= k < |m.ip| => BitText(m.ip[k]));
    var y := seq(|n.ip|, k requires 0 <= k < |n.ip| => BitText(n.ip[k]));
    DigitsOnly(m.plen);
    DigitsOnly(n.plen);
    LastMark('/', x, Digits(m.plen), y, Digits(n.plen));
    DigitsInjective(m.plen, n.plen);
    forall k | 0 <= k < |m.ip| ensures m.ip[k] == n.ip[k] {
      assert x[k] == BitText(m.ip[k]) && y[k] == BitText(n.ip[k]);
    }
  }

  ghost predicate InjectiveText(f: Prefix -> string) {
    forall m, n :: f(m) == f(n) ==> m == n
  }

  lemma PlainTextTells()
    ensures InjectiveText(PlainText)
  {
    forall m, n | PlainText(m) == PlainText(n) ensures m == n {
      PlainTextInjective(m, n);
    }
  }

  /** How networks are printed: in any way that tells them apart. */
  type NetText = f: Prefix -> string | InjectiveText(f) witness (PlainTextTells(); PlainText)

  // ----- IDs of rules -----

  function ProtoText(proto: Protocol): string { if proto == TCP then "TCP" else "UDP" }

  function PortText(port: Port): string {
    ProtoText(port.proto) + ":" + if port.number == 0 then "ANY" else Digits(port.number)
  }

  function PeerText(text: NetText, peer: Peer): string {
    match peer
    case AnyPeer => ""
    case PodPeer(pod) => "-" + pod.namespace + "/" + pod.name
    case SubnetPeer(subnet) => "-" + text(subnet)
  }

  /** The ID of a permit rule. */
  function PermitText(text: NetText, policy: PolicyID, peer: Peer, port: Port): string {
    policy.namespace + "/" + policy.name + PeerText(text, peer) + "-" + PortText(port)
  }

  /** The ID of a deny-the-rest rule. */
  function NoneText(proto: Protocol): string { ProtoText(proto) + ":NONE" }

  /** Texts without a mark are told apart behind the last mark. */
  lemma LastMark(mark: char, x: string, a: string, y: string, b: string)
    requires x + [mark] + a == y + [mark] + b && mark !in a && mark !in b
    ensures x == y && a == b
  {
    var s, t := x + [mark] + a, y + [mark] + b;
    assert s[|x|] == mark && t[|y|] == mark;
    assert forall k :: |x| < k < |s| ==> s[k] == a[k - |x| - 1] != mark;
    assert forall k :: |y| < k < |t| ==> t[k] == b[k - |y| - 1] != mark;
    assert s[..|x|] == x && t[..|y|] == y && s[|x| + 1..] == a && t[|y| + 1..] == b;
  }

  lemma PortTextPlain(port: Port)
    ensures '-' !in PortText(port) && '/' !in PortText(port)
  {
    DigitsOnly(port.number);
  }

  lemma PortTextInjective(a: Port, b: Port)
    requires PortText(a) == PortText(b)
    ensures a == b
  {
    var s, t := PortText(a), PortText(b);
    var x := if a.number == 0 then "ANY" else Digits(a.number);
    var y := if b.number == 0 then "ANY" else Digits(b.number);
    assert s[0] == ProtoText(a.proto)[0] && t[0] == ProtoText(b.proto)[0];
    assert s[4..] == x && t[4..] == y;
    DigitsOnly(a.number);
    DigitsOnly(b.number);
    assert (a.number == 0 ==> x[0] == 'A') && (b.number == 0 ==> y[0] == 'A');
    assert (a.number != 0 ==> x[0] in x && x[0] != 'A') && (b.number != 0 ==> y[0] in y && y[0] != 'A');
    if a.number != 0 && b.number != 0 {
      DigitsInjective(a.number, b.number);
    }
  }

  /** The ID of a permit rule determines its port. */
  lemma PermitTextPort(text: NetText, policy: PolicyID, peer: Peer, port: Port, policy': PolicyID, peer': Peer, port': Port)
    requires PermitText(text, policy, peer, port) == PermitText(text, policy', peer', port')
    ensures port == port'
    ensures policy.namespace + "/" + policy.name + PeerText(text, peer) == policy'.namespace + "/" + policy'.name + PeerText(text, peer')
  {
    PortTextPlain(port);
    PortTextPlain(port');
    LastMark('-', policy.namespace + "/" + policy.name + PeerText(text, peer), PortText(port),
             policy'.namespace + "/" + policy'.name + PeerText(text, peer'), PortText(port'));
    PortTextInjective(port, port');
  }

  /** It is never the ID of a deny-the-rest rule. */
  lemma PermitIsNotNone(text: NetText, policy: PolicyID, peer: Peer, port: Port, proto: Protocol)
    ensures PermitText(text, policy, peer, port) != NoneText(proto)
  {
    var s := PermitText(text, policy, peer, port);
    assert s[|policy.namespace|] == '/';
    assert '/' in s && '/' !in NoneText(proto);
  }

  lemma NonesDiffer()
    ensures NoneText(TCP) != NoneText(UDP)
  {
    assert NoneText(TCP)[0] != NoneText(UDP)[0];
  }

  /** The IDs of different policies and pods can be the same: the dash between them also occurs in
      names. */
  lemma IDsCollide(text: NetText, namespace: string, a: string, b: string, c: string, d: string, port: Port)
    ensures PermitText(text, PolicyID(namespace, a), PodPeer(PodID(b + "-" + c, d)), port) ==
            PermitText(text, PolicyID(namespace, a + "-" + b), PodPeer(PodID(c, d)), port)
  {
    hide PortText;
    Regroup(namespace + "/", a, "-" + b, "-" + c, "/" + d);
    assert PeerText(text, PodPeer(PodID(b + "-" + c, d))) == "-" + b + ("-" + c) + ("/" + d);
    assert PeerText(text, PodPeer(PodID(c, d))) == "-" + c + ("/" + d);
    assert a + "-" + b == a + ("-" + b);
  }

  lemma Regroup(p: string, a: string, b: string, c: string, d: string)
    ensures p + a + (b + c + d) == p + (a + b) + (c + d)
  {
  }
}
