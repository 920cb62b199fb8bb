/** IP networks (net.IPNet, plugins/policy/utils/utils.go) and the prefix arithmetic
    of plugins/policy/configurator/configurator_impl.go.

    An address is its bit string, most significant bit first; bit i is bit 7 - i%8 of
    byte i/8.  The length of the bit string, 32 or 128, is the address family. */
module Net {
  import opened Base

  type Bits = seq<bool>

  predicate IsAddress(a: Bits) { |a| == 32 || |a| == 128 }

  type Address = a: Bits | IsAddress(a) witness Zeros(32)

  /** AnyNet is the zero net.IPNet, whose IP has length 0 and which matches everything. */
  datatype IPNet = AnyNet | Subnet(ip: Bits, plen: nat)

  function Zeros(n: nat): (z: Bits)
    ensures |z| == n
  {
    seq(n, _ => false)
  }

  /** net.IP.Mask with net.CIDRMask(n, ...) */
  function Mask(ip: Bits, n: nat): (m: Bits)
    requires n <= |ip|
    ensures |m| == |ip| && m[..n] == ip[..n]
    ensures forall i :: n <= i < |m| ==> !m[i]
  {
    ip[..n] + Zeros(|ip| - n)
  }

  predicate WellFormed(n: IPNet) {
    n.Subnet? ==> IsAddress(n.ip) && n.plen <= |n.ip|
  }

  /** What net.ParseCIDR returns: no address bit is set past the prefix. */
  predicate Canonical(n: IPNet) {
    n.Subnet? && WellFormed(n) && n.ip == Mask(n.ip, n.plen)
  }

  type Prefix = n: IPNet | Canonical(n) witness Subnet(Zeros(32), 0)

  /** net.IPNet.Contains: false across families. */
  predicate Contains(n: IPNet, a: Bits) {
    n.Subnet? && |a| == |n.ip| && n.plen <= |a| && a[..n.plen] == n.ip[..n.plen]
  }

  /** utils.GetOneHostSubnet */
  function OneHost(a: Address): (n: Prefix)
    ensures forall x: Bits :: Contains(n, x) <==> x == a
  {
    assert Mask(a, |a|) == a;
    assert forall x: Bits :: |x| == |a| ==> x[..|a|] == x;
    Subnet(a, |a|)
  }

  predicate Covers(nets: seq<IPNet>, a: Bits) {
    exists i :: 0 <= i < |nets| && Contains(nets[i], a)
  }

  ghost predicate Disjoint(m: IPNet, n: IPNet) {
    forall a: Bits :: !(Contains(m, a) && Contains(n, a))
  }

  ghost predicate PairwiseDisjoint(nets: seq<IPNet>) {
    forall i, j :: 0 <= i < j < |nets| ==> Disjoint(nets[i], nets[j])
  }

  ghost predicate AllCanonical(nets: seq<IPNet>) {
    forall i :: 0 <= i < |nets| ==> Canonical(nets[i])
  }

  // ----- Covered addresses -----

  lemma CoversAppend(m: seq<IPNet>, n: seq<IPNet>, a: Bits)
    ensures Covers(m + n, a) <==> Covers(m, a) || Covers(n, a)
  {
    if Covers(m, a) {
      var i :| 0 <= i < |m| && Contains(m[i], a);
      assert Contains((m + n)[i], a);
    }
    if Covers(n, a) {
      var i :| 0 <= i < |n| && Contains(n[i], a);
      assert Contains((m + n)[|m| + i], a);
    }
  }

  lemma CoversNone(a: Bits)
    ensures !Covers([], a)
  {
  }

  lemma CoversOne(n: IPNet, a: Bits)
    ensures Covers([n], a) <==> Contains(n, a)
  {
    if Contains(n, a) { assert Contains([n][0], a); }
  }

  // ----- Subtracting one network from another -----

  /** The network that agrees with n on the first bit positions, differs from it at
      position bit, and ends there. */
  function Sibling(n: IPNet, bit: nat): IPNet
    requires n.Subnet? && bit < |n.ip|
  {
    var ip := Mask(n.ip, bit + 1);
    Subnet(ip[bit := !ip[bit]], bit + 1)
  }

  function Siblings(n: IPNet, lo: nat, hi: nat): (nets: seq<IPNet>)
    requires n.Subnet? && lo <= hi <= |n.ip|
    ensures |nets| == hi - lo
    ensures forall i :: 0 <= i < |nets| ==> nets[i] == Sibling(n, lo + i)
  {
    seq(hi - lo, i requires 0 <= i < hi - lo => Sibling(n, lo + i))
  }

  function Subtraction(net1: IPNet, net2: IPNet): seq<IPNet>
    requires net1.Subnet? && net2.Subnet? && WellFormed(net1) && WellFormed(net2)
  {
    if net1.plen > net2.plen then
      if Contains(net2, net1.ip) then [] else [net1]
    else if net1.plen == net2.plen then
      if net1.ip == net2.ip then [] else [net1]
    else if !Contains(net1, net2.ip) then [net1]
    else Siblings(net2, net1.plen, net2.plen)
  }

  /** subtractSubnet: walks down the prefix tree from net1 to net2, leaving the other
      branch behind at every level. */
  method SubtractSubnet(net1: IPNet, net2: IPNet) returns (result: seq<IPNet>)
    requires net1.Subnet? && net2.Subnet? && WellFormed(net1) && WellFormed(net2)
    ensures result == Subtraction(net1, net2)
  {
    result := [];
    if net1.plen > net2.plen {
      if !Contains(net2, net1.ip) {
        result := result + [net1];
      }
    } else if net1.plen == net2.plen {
      if net1.ip != net2.ip {
        result := result + [net1];
      }
    } else {
      if !Contains(net1, net2.ip) {
        result := result + [net1];
      } else {
        var bit := net1.plen;
        while bit < net2.plen
          invariant net1.plen <= bit <= net2.plen
          invariant result == Siblings(net2, net1.plen, bit)
        {
          var ip := Mask(net2.ip, bit + 1);
          ip := ip[bit := !ip[bit]];
          result := result + [Subnet(ip, bit + 1)];
          bit := bit + 1;
        }
      }
    }
  }

  lemma SiblingMember(n: IPNet, bit: nat, a: Bits)
    requires n.Subnet? && bit < |n.ip|
    ensures Contains(Sibling(n, bit), a) <==>
            |a| == |n.ip| && a[..bit] == n.ip[..bit] && a[bit] != n.ip[bit]
  {
    var s := Sibling(n, bit);
    var m := Mask(n.ip, bit + 1);
    assert m[..bit] == m[..bit + 1][..bit] == n.ip[..bit + 1][..bit] == n.ip[..bit];
    assert m[bit] == m[..bit + 1][bit] == n.ip[bit];
    assert s.ip[..bit + 1] == n.ip[..bit] + [!n.ip[bit]];
    if |a| == |n.ip| {
      assert a[..bit + 1] == a[..bit] + [a[bit]];
      if a[..bit + 1] == s.ip[..bit + 1] {
        assert a[..bit] == a[..bit + 1][..bit] == n.ip[..bit];
        assert a[bit] == a[..bit + 1][bit];
      }
    }
  }

  lemma SiblingCanonical(n: IPNet, bit: nat)
    requires n.Subnet? && WellFormed(n) && bit < |n.ip|
    ensures Canonical(Sibling(n, bit))
  {
    var s := Sibling(n, bit);
    assert s.ip == Mask(s.ip, s.plen);
  }

  lemma PrefixGrows(a: Bits, b: Bits, n: nat)
    requires n < |a| && n < |b|
    ensures a[..n + 1] == b[..n + 1] <==> a[..n] == b[..n] && a[n] == b[n]
  {
    assert a[..n + 1] == a[..n] + [a[n]] && b[..n + 1] == b[..n] + [b[n]];
  }

  lemma PrefixTransfer(a: Bits, b: Bits, m: nat, n: nat)
    requires m <= n <= |a| && n <= |b|
    ensures a[..n] == b[..n] ==> a[..m] == b[..m]
  {
    assert a[..m] == a[..n][..m];
    assert b[..m] == b[..n][..m];
  }

  /** An address of the outer prefix either agrees with n up to hi or leaves it at
      exactly one level between lo and hi. */
  lemma {:induction false} SiblingsCover(n: IPNet, lo: nat, hi: nat, a: Bits)
    requires n.Subnet? && lo <= hi <= |n.ip| && |a| == |n.ip|
    ensures Covers(Siblings(n, lo, hi), a) <==>
            a[..lo] == n.ip[..lo] && a[..hi] != n.ip[..hi]
    decreases hi - lo
  {
    hide Contains, Covers, Sibling;
    if lo == hi {
      CoversNone(a);
      assert Siblings(n, lo, hi) == [];
    } else {
      var rest := Siblings(n, lo + 1, hi);
      SiblingsCover(n, lo + 1, hi, a);
      SiblingMember(n, lo, a);
      assert Siblings(n, lo, hi) == [Sibling(n, lo)] + rest;
      CoversAppend([Sibling(n, lo)], rest, a);
      CoversOne(Sibling(n, lo), a);
      PrefixGrows(a, n.ip, lo);
      PrefixTransfer(a, n.ip, lo + 1, hi);
    }
  }

  lemma SiblingsDisjoint(n: IPNet, lo: nat, hi: nat)
    requires n.Subnet? && lo <= hi <= |n.ip|
    ensures PairwiseDisjoint(Siblings(n, lo, hi))
  {
    var nets := Siblings(n, lo, hi);
    forall i, j, a: Bits | 0 <= i < j < |nets|
      ensures !(Contains(nets[i], a) && Contains(nets[j], a))
    {
      SiblingMember(n, lo + i, a);
      SiblingMember(n, lo + j, a);
      if |a| == |n.ip| && a[..lo + j] == n.ip[..lo + j] {
        assert a[lo + i] == a[..lo + j][lo + i] == n.ip[..lo + j][lo + i];
      }
    }
  }

  lemma SubtractionMember(net1: IPNet, net2: IPNet, a: Bits)
    requires net1.Subnet? && net2.Subnet? && WellFormed(net1) && WellFormed(net2)
    requires SameLevelMisses(net1, net2) ==> !Contains(net1, a)
    ensures Covers(Subtraction(net1, net2), a) <==> Contains(net1, a) && !Contains(net2, a)
  {
    var result := Subtraction(net1, net2);
    CoversOne(net1, a);
    if net1.plen > net2.plen {
      if Contains(net1, a) {
        PrefixTransfer(a, net1.ip, net2.plen, net1.plen);
      }
    } else if net1.plen == net2.plen {
    } else if !Contains(net1, net2.ip) {
      if Contains(net1, a) && Contains(net2, a) {
        PrefixTransfer(a, net2.ip, net1.plen, net2.plen);
      }
    } else if |a| == |net2.ip| {
      SiblingsCover(net2, net1.plen, net2.plen, a);
    } else if Covers(result, a) {
      var i :| 0 <= i < |result| && Contains(result[i], a);
      SiblingMember(net2, net1.plen + i, a);
    }
  }

  /** The one case that the comparison of addresses at the same level gets wrong: the
      same network written with different bits past its prefix. */
  predicate SameLevelMisses(net1: IPNet, net2: IPNet) {
    && net1.Subnet? && net2.Subnet? && WellFormed(net1)
    && net1.plen == net2.plen && Contains(net1, net2.ip) && net1.ip != net2.ip
  }

  /** subtractSubnet returns exactly net1 minus net2 if and only if the networks are not
      two spellings of one network. */
  lemma SubtractionExactIff(net1: IPNet, net2: IPNet)
    requires net1.Subnet? && net2.Subnet? && WellFormed(net1) && WellFormed(net2)
    ensures (forall a: Bits :: Covers(Subtraction(net1, net2), a) <==>
                               Contains(net1, a) && !Contains(net2, a))
            <==> !SameLevelMisses(net1, net2)
  {
    if SameLevelMisses(net1, net2) {
      assert Contains(net1, net1.ip) && Contains(net2, net1.ip);
      assert Contains(Subtraction(net1, net2)[0], net1.ip);
      assert Covers(Subtraction(net1, net2), net1.ip);
    } else {
      forall a: Bits
        ensures Covers(Subtraction(net1, net2), a) <==> Contains(net1, a) && !Contains(net2, a)
      {
        SubtractionMember(net1, net2, a);
      }
    }
  }

  lemma CanonicalNeverMisses(net1: Prefix, net2: Prefix)
    ensures !SameLevelMisses(net1, net2)
  {
    if net1.plen == net2.plen && Contains(net1, net2.ip) {
      assert net1.ip == net1.ip[..net1.plen] + Zeros(|net1.ip| - net1.plen);
      assert net2.ip == net2.ip[..net2.plen] + Zeros(|net2.ip| - net2.plen);
    }
  }

  lemma SubtractionCanonical(net1: Prefix, net2: Prefix)
    ensures AllCanonical(Subtraction(net1, net2))
    ensures PairwiseDisjoint(Subtraction(net1, net2))
  {
    var result := Subtraction(net1, net2);
    if net1.plen < net2.plen && Contains(net1, net2.ip) {
      forall i | 0 <= i < |result| ensures Canonical(result[i]) {
        SiblingCanonical(net2, net1.plen + i);
      }
      SiblingsDisjoint(net2, net1.plen, net2.plen);
    }
  }

  // ----- Subtracting a list of exceptions from a block -----

  /** One round of the except loop: every network of the list minus one exception. */
  function SubtractFromAll(nets: seq<Prefix>, except: Prefix): (r: seq<Prefix>) {
    if nets == [] then []
    else
      SubtractionCanonical(nets[|nets| - 1], except);
      SubtractFromAll(nets[..|nets| - 1], except) + Subtraction(nets[|nets| - 1], except)
  }

  function Expand(network: Prefix, excepts: seq<Prefix>): (r: seq<Prefix>) {
    if excepts == [] then [network]
    else SubtractFromAll(Expand(network, excepts[..|excepts| - 1]), excepts[|excepts| - 1])
  }

  lemma {:induction false} SubtractFromAllMember(nets: seq<Prefix>, except: Prefix, a: Bits)
    ensures Covers(SubtractFromAll(nets, except), a) <==> Covers(nets, a) && !Contains(except, a)
  {
    if nets != [] {
      var init, last := nets[..|nets| - 1], nets[|nets| - 1];
      SubtractFromAllMember(init, except, a);
      CanonicalNeverMisses(last, except);
      SubtractionMember(last, except, a);
      CoversAppend(SubtractFromAll(init, except), Subtraction(last, except), a);
      CoversAppend(init, [last], a);
      assert init + [last] == nets;
      CoversOne(last, a);
    }
  }

  lemma {:induction false} SubtractFromAllDisjoint(nets: seq<Prefix>, except: Prefix)
    requires PairwiseDisjoint(nets)
    ensures PairwiseDisjoint(SubtractFromAll(nets, except))
  {
    if nets != [] {
      var init, last := nets[..|nets| - 1], nets[|nets| - 1];
      assert PairwiseDisjoint(init);
      SubtractFromAllDisjoint(init, except);
      SubtractionCanonical(last, except);
      var left, right := SubtractFromAll(init, except), Subtraction(last, except);
      forall i, j, a: Bits | 0 <= i < |left| && 0 <= j < |right|
        ensures !(Contains(left[i], a) && Contains(right[j], a))
      {
        SubtractFromAllMember(init, except, a);
        CanonicalNeverMisses(last, except);
        SubtractionMember(last, except, a);
        if Contains(left[i], a) {
          assert Covers(left, a);
          var k :| 0 <= k < |init| && Contains(init[k], a);
          assert Disjoint(nets[k], nets[|nets| - 1]);
          assert !Covers(right, a);
        }
      }
    }
  }

  lemma {:induction false} ExpandMember(network: Prefix, excepts: seq<Prefix>, a: Bits)
    ensures Covers(Expand(network, excepts), a) <==> Contains(network, a) && !Covers(excepts, a)
  {
    hide Contains, Covers, SubtractFromAll;
    if excepts == [] {
      CoversOne(network, a);
      CoversNone(a);
    } else {
      var init, last := excepts[..|excepts| - 1], excepts[|excepts| - 1];
      ExpandMember(network, init, a);
      SubtractFromAllMember(Expand(network, init), last, a);
      CoversAppend(init, [last], a);
      CoversOne(last, a);
      assert init + [last] == excepts;
    }
  }

  lemma {:induction false} ExpandDisjoint(network: Prefix, excepts: seq<Prefix>)
    ensures PairwiseDisjoint(Expand(network, excepts))
  {
    if excepts != [] {
      ExpandDisjoint(network, excepts[..|excepts| - 1]);
      SubtractFromAllDisjoint(Expand(network, excepts[..|excepts| - 1]), excepts[|excepts| - 1]);
    }
  }

  /** Folding subtractSubnet over the exceptions of a block yields pairwise disjoint
      prefixes that cover exactly the block minus the union of the exceptions. */
  lemma ExpandExact(network: Prefix, excepts: seq<Prefix>)
    ensures PairwiseDisjoint(Expand(network, excepts))
    ensures forall a: Bits :: Covers(Expand(network, excepts), a) <==>
                              Contains(network, a) && !Covers(excepts, a)
  {
    ExpandDisjoint(network, excepts);
    forall a: Bits
      ensures Covers(Expand(network, excepts), a) <==> Contains(network, a) && !Covers(excepts, a)
    {
      ExpandMember(network, excepts, a);
    }
  }

  /** The pieces of a block are of its family and no larger than the block. */
  lemma {:induction false} ExpandPieces(network: Prefix, excepts: seq<Prefix>)
    ensures forall n :: n in Expand(network, excepts) ==> |n.ip| == |network.ip| && n.plen >= network.plen
  {
    if excepts != [] {
      ExpandPieces(network, excepts[..|excepts| - 1]);
      SubtractPieces(Expand(network, excepts[..|excepts| - 1]), excepts[|excepts| - 1], |network.ip|, network.plen);
    }
  }

  lemma {:induction false} SubtractPieces(nets: seq<Prefix>, except: Prefix, length: nat, plen: nat)
    requires forall n :: n in nets ==> |n.ip| == length && n.plen >= plen
    ensures forall n :: n in SubtractFromAll(nets, except) ==> |n.ip| == length && n.plen >= plen
  {
    if nets != [] {
      var init, last := nets[..|nets| - 1], nets[|nets| - 1];
      assert nets == init + [last];
      SubtractPieces(init, except, length, plen);
      SubtractionCanonical(last, except);
      forall n | n in Subtraction(last, except) ensures |n.ip| == length && n.plen >= plen {
      }
    }
  }

  /** The exceptions leave the network in one piece, or all that is left is smaller. */
  lemma {:induction false} ExpandWhole(network: Prefix, excepts: seq<Prefix>)
    ensures Expand(network, excepts) == [network] || forall n :: n in Expand(network, excepts) ==> n.plen > network.plen
  {
    if excepts != [] {
      var init, last := excepts[..|excepts| - 1], excepts[|excepts| - 1];
      ExpandWhole(network, init);
      if Expand(network, init) == [network] {
        SubtractionCanonical(network, last);
        SubtractFromOne(network, last);
      } else {
        ExpandPieces(network, init);
        SubtractPieces(Expand(network, init), last, |network.ip|, network.plen + 1);
      }
    }
  }

  lemma SubtractFromOne(network: Prefix, except: Prefix)
    ensures SubtractFromAll([network], except) == Subtraction(network, except)
  {
    assert [network][..0] == [];
  }
}
