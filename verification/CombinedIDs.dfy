/** The IDs of combined rules (plugins/policy/renderer/vpptcp/cache/cache_impl.go). */
module CombinedIDs {
  import opened Base
  import opened Rules
  import opened Policies
  import opened RuleIDs
  import opened CombinedRules

  function LastPart(c: CombinedID): string {
    ProtoText(c.proto) + ":" + if c.port.None? then "NONE" else Digits(c.port.value)
  }

  /** Only the IDs for TCP start with the namespace of the table. */
  function CombinedText(c: CombinedID): string {
    (if c.proto == TCP then Digits(c.ns) + "-" else "") + "combined-" + Digits(c.rmtNs) + "-" + LastPart(c)
  }

  /** How the IDs read. */
  lemma CombinedIDsRead(c: CombinedID)
    ensures var end := match c.port case None => "NONE" case Some(port) => Digits(port);
            && (c.proto == TCP ==> CombinedText(c) == Digits(c.ns) + "-combined-" + Digits(c.rmtNs) + ("-TCP:" + end))
            && (c.proto == UDP ==> CombinedText(c) == "combined-" + Digits(c.rmtNs) + ("-UDP:" + end))
  {
    hide Digits;
    var end := if c.port.None? then "NONE" else Digits(c.port.value);
    if c.proto == TCP {
      EndsRead("-TCP:", "TCP", end);
      assert Digits(c.ns) + "-" + "combined-" == Digits(c.ns) + "-combined-";
      Rejoin(Digits(c.ns) + "-combined-" + Digits(c.rmtNs), "-", "TCP" + ":" + end);
    } else {
      EndsRead("-UDP:", "UDP", end);
      assert "" + "combined-" == "combined-";
      Rejoin("combined-" + Digits(c.rmtNs), "-", "UDP" + ":" + end);
    }
  }

  lemma EndsRead(mark: string, proto: string, end: string)
    requires mark == "-" + proto + ":"
    ensures "-" + (proto + ":" + end) == mark + end
  {
  }

  lemma Rejoin(a: string, b: string, c: string)
    ensures a + b + c == a + (b + c)
  {
  }

  lemma LastPartPlain(c: CombinedID)
    ensures '-' !in LastPart(c) && '/' !in LastPart(c)
  {
    if c.port.Some? { DigitsOnly(c.port.value); }
  }

  lemma LastPartTells(c: CombinedID, d: CombinedID)
    requires LastPart(c) == LastPart(d)
    ensures c.proto == d.proto && c.port == d.port
  {
    var s, t := LastPart(c), LastPart(d);
    var x := if c.port.None? then "NONE" else Digits(c.port.value);
    var y := if d.port.None? then "NONE" else Digits(d.port.value);
    assert s[0] == ProtoText(c.proto)[0] && t[0] == ProtoText(d.proto)[0];
    assert s[4..] == x && t[4..] == y;
    if c.port.Some? {
      DigitsOnly(c.port.value);
      assert x[0] in x && x[0] != 'N';
    }
    if d.port.Some? {
      DigitsOnly(d.port.value);
      assert y[0] in y && y[0] != 'N';
    }
    if c.port.Some? && d.port.Some? {
      DigitsInjective(c.port.value, d.port.value);
    }
  }

  /** Within a namespace the ID determines the rule. */
  lemma CombinedTextTells(c: CombinedID, d: CombinedID)
    requires c.ns == d.ns && CombinedText(c) == CombinedText(d)
    ensures c == d
  {
    LastPartPlain(c);
    LastPartPlain(d);
    var pc := if c.proto == TCP then Digits(c.ns) + "-" else "";
    var pd := if d.proto == TCP then Digits(d.ns) + "-" else "";
    LastMark('-', pc + "combined-" + Digits(c.rmtNs), LastPart(c), pd + "combined-" + Digits(d.rmtNs), LastPart(d));
    LastPartTells(c, d);
    DigitsOnly(c.rmtNs);
    DigitsOnly(d.rmtNs);
    assert pc + "combined-" + Digits(c.rmtNs) == pc + "combined" + "-" + Digits(c.rmtNs);
    assert pd + "combined-" + Digits(d.rmtNs) == pd + "combined" + "-" + Digits(d.rmtNs);
    LastMark('-', pc + "combined", Digits(c.rmtNs), pd + "combined", Digits(d.rmtNs));
    DigitsInjective(c.rmtNs, d.rmtNs);
  }

  lemma CombinedHasNoSlash(c: CombinedID)
    ensures '/' !in CombinedText(c)
  {
    LastPartPlain(c);
    DigitsOnly(c.ns);
    DigitsOnly(c.rmtNs);
  }

  /** It is never the ID of a rule that the configurator generates. */
  lemma CombinedIsNotPermit(text: NetText, policy: PolicyID, peer: Peer, port: Port, c: CombinedID)
    ensures CombinedText(c) != PermitText(text, policy, peer, port)
  {
    hide CombinedText;
    CombinedHasNoSlash(c);
    var s := PermitText(text, policy, peer, port);
    assert s[|policy.namespace|] == '/';
  }

  lemma CombinedIsNotNone(proto: Protocol, c: CombinedID)
    ensures CombinedText(c) != NoneText(proto)
  {
    var pre := if c.proto == TCP then Digits(c.ns) + "-" else "";
    var s := CombinedText(c);
    assert s[|pre| + 8] == '-';
    assert '-' in s && '-' !in NoneText(proto);
  }
}
