/** Address management of a node: the pod network that belongs to a node ID, and the pool of pod
    addresses in it (plugins/contiv/ipam/ipam.go).  An IPv4 address is its uint32 value. */
module Ipam {
  import opened Base

  const WORD := 0x1_0000_0000

  function Pow2(n: nat): (p: nat)
    ensures p >= 1
  {
    if n == 0 then 1 else 2 * Pow2(n - 1)
  }

  lemma {:induction false} Pow2Add(m: nat, n: nat)
    ensures Pow2(m + n) == Pow2(m) * Pow2(n)
  {
    if m > 0 {
      Pow2Add(m - 1, n);
      assert Pow2(m + n) == 2 * Pow2(m - 1 + n);
    }
  }

  lemma {:induction false} Pow2Monotone(m: nat, n: nat)
    requires m <= n
    ensures Pow2(m) <= Pow2(n)
  {
    if m < n { Pow2Monotone(m, n - 1); }
  }

  lemma Pow2Values()
    ensures Pow2(8) == 0x100 && Pow2(32) == WORD
  {
    assert Pow2(4) == 16;
    Pow2Add(4, 4);
    Pow2Add(8, 8);
    Pow2Add(16, 16);
  }

  // ----- Machine words -----

  /** Shift to the left of a uint32; shifting by 32 or more gives 0. */
  function Shl32(x: uint32, n: uint8): uint32 { if n >= 32 then 0 else (x * Pow2(n)) % WORD }

  function And(a: nat, b: nat): nat {
    if a == 0 || b == 0 then 0 else (a % 2) * (b % 2) + 2 * And(a / 2, b / 2)
  }

  lemma {:induction false} AndMask(a: nat, n: nat)
    ensures And(a, Pow2(n) - 1) == a % Pow2(n)
  {
    if n > 0 {
      var half := Pow2(n - 1);
      AndMask(a / 2, n - 1);
      assert (Pow2(n) - 1) / 2 == half - 1 && (Pow2(n) - 1) % 2 == 1;
      HalfMod(a, half);
    }
  }

  lemma HalfMod(a: nat, half: nat)
    requires half >= 1
    ensures a % (2 * half) == a % 2 + 2 * ((a / 2) % half)
  {
    var q, r := (a / 2) / half, (a / 2) % half;
    assert a == 2 * (half * q + r) + a % 2;
    assert a == (2 * half) * q + (2 * r + a % 2);
    ModIs(a, 2 * half, q, 2 * r + a % 2);
  }

  // ----- Networks -----

  datatype Net4 = Net4(ip: uint32, plen: nat)

  /** What net.ParseCIDR makes of a configured subnet. */
  datatype Subnet = V4(net: Net4) | V6(plen: nat) | Unparsable

  /** No address bit is set past the prefix. */
  predicate Canonical4(n: Net4) { n.plen <= 32 && n.ip % Pow2(32 - n.plen) == 0 }

  predicate InNet(n: Net4, a: uint32)
    requires n.plen <= 32
  {
    a / Pow2(32 - n.plen) == n.ip / Pow2(32 - n.plen)
  }

  /** Trims the ID to the size of its place; the mask is computed in uint8. */
  function ConvertToHostIPPart(hostID: uint8, bits: uint8): nat {
    And(hostID, (Pow2(bits) % 0x100 + 0xFF) % 0x100)
  }

  lemma Pow2Below(m: nat, n: nat)
    requires m < n
    ensures 2 * Pow2(m) <= Pow2(n)
  {
    Pow2Monotone(m + 1, n);
  }

  lemma {:induction false} Pow2Multiple(n: nat)
    requires n >= 8
    ensures Pow2(n) % 0x100 == 0
  {
    Pow2Values();
    Pow2Add(8, n - 8);
    ModIs(Pow2(n), 0x100, Pow2(n - 8), 0);
  }

  lemma HostPartIs(hostID: uint8, bits: uint8)
    ensures ConvertToHostIPPart(hostID, bits) == if bits < 8 then hostID % Pow2(bits) else hostID
    ensures ConvertToHostIPPart(hostID, bits) < Pow2(bits) && ConvertToHostIPPart(hostID, bits) < 0x100
  {
    hide Pow2, And;
    Pow2Values();
    if bits < 8 {
      Pow2Below(bits, 8);
      AndMask(hostID, bits);
      assert (Pow2(bits) % 0x100 + 0xFF) % 0x100 == Pow2(bits) - 1;
    } else {
      Pow2Multiple(bits);
      Pow2Monotone(8, bits);
      AndMask(hostID, 8);
    }
  }

  /** The mask as it is computed, in uint32. */
  function MaskOf(plen: uint8): uint32 {
    Shl32((Shl32(1, plen) + WORD - 1) % WORD, (32 - plen) % 0x100)
  }

  lemma ShlExact(x: uint32, n: uint8)
    requires n < 32 && x * Pow2(n) < WORD
    ensures Shl32(x, n) == x * Pow2(n)
  {
    hide Pow2;
  }

  /** A mask of plen ones; beyond 32 it degenerates to no ones at all. */
  lemma MaskIs(plen: uint8)
    ensures MaskOf(plen) == if plen <= 32 then WORD - Pow2(32 - plen) else 0
  {
    hide Shl32;
    Pow2Values();
    assert Pow2(0) == 1;
    hide Pow2;
    if plen < 32 {
      var a, b := Pow2(plen), Pow2(32 - plen);
      Pow2Below(plen, 32);
      Pow2Add(plen, 32 - plen);
      MaskProduct(a, b);
      ShlExact(1, plen);
      ShiftWraps(plen);
      if plen == 0 {
        ShlZero(32);
      } else {
        ShlExact(a - 1, 32 - plen);
      }
    } else if plen == 32 {
      ShlZero(32);
      ShlExact(WORD - 1, 0);
    } else {
      ShiftWraps(plen);
      ShlZero((32 - plen) % 0x100);
      ShlZero(plen);
    }
  }

  lemma ShlZero(n: uint8)
    requires n >= 32
    ensures forall x :: Shl32(x, n) == 0
  {
  }

  lemma ShiftWraps(plen: uint8)
    ensures plen <= 32 ==> (32 - plen) % 0x100 == 32 - plen
    ensures plen > 32 ==> (32 - plen) % 0x100 >= 32
  {
  }

  lemma MaskProduct(a: nat, b: nat)
    requires a * b == WORD && a >= 1
    ensures (a - 1) * b == WORD - b && (a < WORD ==> (a + WORD - 1) % WORD == a - 1)
  {
    assert (a - 1) * b == a * b - b;
  }

  /** applyHostID; the prefix length is the size of the computed mask. */
  function ApplyHostID(subnet: Net4, hostID: uint8, plen: uint8): Net4 {
    var part := ConvertToHostIPPart(hostID, (plen - subnet.plen) % 0x100);
    Net4((subnet.ip + Shl32(part % WORD, (32 - plen) % 0x100)) % WORD, if plen <= 32 then plen else 0)
  }

  /** convertConfigNotation: None is an error. */
  function ConvertConfigNotation(subnet: Subnet, plen: uint8, hostID: uint8): Option<(Net4, Net4)> {
    if !subnet.V4? || plen <= subnet.net.plen then None
    else Some((subnet.net, ApplyHostID(subnet.net, hostID, plen)))
  }

  predicate ValidConfig(subnet: Net4, plen: nat) {
    Canonical4(subnet) && subnet.plen < plen <= 32
  }

  /** The address of the network is the subnet followed by the host part; nothing wraps. */
  lemma NetworkIs(subnet: Net4, hostID: uint8, plen: uint8)
    requires ValidConfig(subnet, plen)
    ensures var part := ConvertToHostIPPart(hostID, plen - subnet.plen);
            var n := ApplyHostID(subnet, hostID, plen);
            && part < Pow2(plen - subnet.plen) && n.plen == plen
            && n.ip == subnet.ip + part * Pow2(32 - plen)
            && n.ip == Pow2(32 - plen) * (Pow2(plen - subnet.plen) * (subnet.ip / Pow2(32 - subnet.plen)) + part)
            && subnet.ip == Pow2(32 - plen) * (Pow2(plen - subnet.plen) * (subnet.ip / Pow2(32 - subnet.plen)))
            && n.ip + Pow2(32 - plen) <= WORD
  {
    hide Pow2, ConvertToHostIPPart, ApplyHostID;
    var bits := plen - subnet.plen;
    var part := ConvertToHostIPPart(hostID, bits);
    HostPartIs(hostID, bits);
    Pow2Values();
    var a, b, c := Pow2(32 - plen), Pow2(bits), Pow2(32 - subnet.plen);
    Pow2Add(32 - plen, bits);
    Pow2Add(subnet.plen, 32 - subnet.plen);
    var q := subnet.ip / c;
    assert subnet.ip == c * q;
    NetworkFits(a, b, c, q, Pow2(subnet.plen), part);
    ApplyFits(subnet, hostID, plen, part, a);
  }

  lemma ApplyFits(subnet: Net4, hostID: uint8, plen: uint8, part: nat, a: nat)
    requires subnet.plen < plen <= 32 && part == ConvertToHostIPPart(hostID, plen - subnet.plen) && a == Pow2(32 - plen)
    requires part < 0x100 && part * a < WORD && subnet.ip + part * a < WORD
    ensures ApplyHostID(subnet, hostID, plen) == Net4(subnet.ip + part * a, plen)
  {
    hide Pow2, ConvertToHostIPPart, Shl32;
    ShiftFits(part, 32 - plen);
    var moved := part * a;
    Unwrapped(plen - subnet.plen, 0x100);
    Unwrapped(32 - plen, 0x100);
    Unwrapped(part, WORD);
    Unwrapped(subnet.ip + moved, WORD);
  }

  lemma ShiftFits(x: uint32, n: uint8)
    requires n < 32 && x * Pow2(n) < WORD
    ensures Shl32(x, n) == x * Pow2(n)
  {
    hide Pow2;
    Unwrapped(x * Pow2(n), WORD);
  }

  lemma Unwrapped(x: nat, n: nat)
    requires x < n
    ensures x % n == x
  {
  }

  lemma NetworkFits(a: nat, b: nat, c: nat, q: nat, d: nat, part: nat)
    requires c == a * b && d * c == WORD && c * q < WORD && part < b && a >= 1 && b >= 1 && c >= 1
    ensures c * q == a * (b * q) && c * q + part * a == a * (b * q + part)
    ensures part * a < WORD && c * q + part * a + a <= WORD
  {
    assert c * q == a * (b * q);
    assert a * (b * q + part) == a * (b * q) + a * part;
    assert c * d == d * c;
    LessFactor(c, q, d);
    MulMonotone(c, q + 1, d);
    MulMonotone(a, part + 1, b);
    assert a * (part + 1) == part * a + a;
    assert c * (q + 1) == c * q + c;
  }

  lemma LessFactor(c: nat, q: nat, d: nat)
    requires c * q < c * d
    ensures q < d
  {
    if q >= d { MulMonotone(c, d, q); }
  }

  lemma MulMonotone(c: nat, x: nat, y: nat)
    requires x <= y
    ensures c * x <= c * y
  {
    assert c * y == c * x + c * (y - x);
  }

  /** An address is in the network of a node exactly if it is in the subnet and its host part is
      that of the node. */
  lemma InNetworkIff(subnet: Net4, hostID: uint8, plen: uint8, addr: uint32)
    requires ValidConfig(subnet, plen)
    ensures var n := ApplyHostID(subnet, hostID, plen);
            n.plen == plen &&
            (InNet(n, addr) <==> InNet(subnet, addr) &&
                                 (addr / Pow2(32 - plen)) % Pow2(plen - subnet.plen) == ConvertToHostIPPart(hostID, plen - subnet.plen))
  {
    hide Pow2, ConvertToHostIPPart, ApplyHostID;
    NetworkIs(subnet, hostID, plen);
    var part := ConvertToHostIPPart(hostID, plen - subnet.plen);
    var a, b, c := Pow2(32 - plen), Pow2(plen - subnet.plen), Pow2(32 - subnet.plen);
    Pow2Add(32 - plen, plen - subnet.plen);
    var q := subnet.ip / c;
    ModIs(ApplyHostID(subnet, hostID, plen).ip, a, b * q + part, 0);
    TwoLevels(addr, a, b, c);
    var x := addr / a;
    if x == b * q + part {
      ModIs(x, b, q, part);
    }
  }

  /** Dividing by a and then by b is dividing by a * b. */
  lemma TwoLevels(addr: nat, a: nat, b: nat, c: nat)
    requires a >= 1 && b >= 1 && c == a * b
    ensures addr / c == (addr / a) / b
    ensures addr / a == b * ((addr / a) / b) + (addr / a) % b
  {
    var x, r := addr / a, addr % a;
    var q, p := x / b, x % b;
    assert addr == a * x + r && x == b * q + p;
    TwoLevelsSplit(addr, a, b, c, q, p, r);
  }

  lemma TwoLevelsSplit(addr: nat, a: nat, b: nat, c: nat, q: nat, p: nat, r: nat)
    requires a >= 1 && b >= 1 && c == a * b && addr == a * (b * q + p) + r && p < b && r < a
    ensures c >= 1 && addr / c == q
  {
    assert a * (b * q + p) == a * (b * q) + a * p == c * q + a * p;
    MulMonotone(a, p + 1, b);
    assert a * (p + 1) == a * p + a;
    assert a * p + r < c;
    ModIs(addr, c, q, a * p + r);
  }

  /** Where the IDs of two nodes agree as far as they fit, the nodes get the same network;
      otherwise their networks have no address in common.  Both lie inside the subnet. */
  lemma NetworksDisjointIff(subnet: Net4, h1: uint8, h2: uint8, plen: uint8)
    requires ValidConfig(subnet, plen)
    ensures var n1, n2 := ApplyHostID(subnet, h1, plen), ApplyHostID(subnet, h2, plen);
            var fits := if plen - subnet.plen < 8 then Pow2(plen - subnet.plen) else 0x100;
            && n1.plen == n2.plen == plen
            && (forall addr :: InNet(n1, addr) ==> InNet(subnet, addr))
            && (h1 % fits == h2 % fits ==> n1 == n2)
            && (h1 % fits != h2 % fits ==> n1 != n2 && forall addr :: !(InNet(n1, addr) && InNet(n2, addr)))
  {
    hide Pow2, InNet, ApplyHostID, ConvertToHostIPPart;
    var n1, n2, bits := ApplyHostID(subnet, h1, plen), ApplyHostID(subnet, h2, plen), plen - subnet.plen;
    HostPartIs(h1, bits);
    HostPartIs(h2, bits);
    NetworkIs(subnet, h1, plen);
    NetworkIs(subnet, h2, plen);
    forall addr: uint32 ensures InNet(n1, addr) ==> InNet(subnet, addr)
      ensures InNet(n1, addr) && InNet(n2, addr) ==> ConvertToHostIPPart(h1, bits) == ConvertToHostIPPart(h2, bits) {
      InNetworkIff(subnet, h1, plen, addr);
      InNetworkIff(subnet, h2, plen, addr);
    }
    OwnAddress(n1);
  }

  /** A network prefix longer than 32 bits is not rejected: every node gets the same network,
      whose mask is empty. */
  lemma OversizedPrefix(subnet: Net4, hostID: uint8, plen: uint8)
    requires 32 < plen
    ensures ApplyHostID(subnet, hostID, plen) == Net4(subnet.ip, 0) && MaskOf(plen) == 0
  {
    MaskIs(plen);
    assert (32 - plen) % 0x100 >= 32;
  }

  /** What a node computes for the ID of another one, from the size of its own network, is the network
      of the other node, oversized prefixes included. */
  lemma OtherNetworkIsOwn(subnet: Net4, hostID: uint8, other: uint8, plen: uint8)
    ensures ApplyHostID(subnet, other, ApplyHostID(subnet, hostID, plen).plen) == ApplyHostID(subnet, other, plen)
  {
    hide Pow2, ConvertToHostIPPart;
    assert 32 < plen ==> (32 - plen) % 0x100 >= 32;
  }

  lemma OwnAddress(n: Net4)
    requires n.plen <= 32
    ensures InNet(n, n.ip)
  {
  }

  // ----- Pool of pod addresses -----

  type Pool = map<uint32, string>

  function Size(n: Net4): nat
    requires n.plen <= 32
  {
    Pow2(32 - n.plen)
  }

  /** The j-th address, in uint32. */
  function Addr(n: Net4, j: nat): uint32 { (n.ip + j) % WORD }

  /** Sequence number 0 is the network and 1 the gateway. */
  const GATEWAY_SEQ_ID := 1

  ghost predicate Assignable(n: Net4, j: nat) {
    n.plen <= 32 && GATEWAY_SEQ_ID < j < Size(n)
  }

  /** j is the least free sequence number. */
  ghost predicate IsNext(n: Net4, pool: Pool, j: nat) {
    Assignable(n, j) && Addr(n, j) !in pool && forall i: nat :: Assignable(n, i) && i < j ==> Addr(n, i) in pool
  }

  ghost predicate IsFull(n: Net4, pool: Pool) {
    forall j :: Assignable(n, j) ==> Addr(n, j) in pool
  }

  ghost predicate PoolOk(n: Net4, pool: Pool) {
    && n.plen <= 32
    && (forall a :: a in pool ==> pool[a] != "" && exists j :: Assignable(n, j) && a == Addr(n, j))
  }

  /** pool' is pool after an address was handed out to the pod. */
  ghost predicate Allocates(n: Net4, pool: Pool, podID: string, pool': Pool) {
    podID != "" && exists j :: IsNext(n, pool, j) && pool' == pool[Addr(n, j) := podID]
  }

  /** pool' is pool after one address of the pod was taken back. */
  ghost predicate Releases(pool: Pool, podID: string, pool': Pool) {
    podID != "" && exists a :: a in pool && pool[a] == podID && pool' == pool - {a}
  }

  lemma AllocateKeeps(n: Net4, pool: Pool, podID: string, pool': Pool)
    requires PoolOk(n, pool) && Allocates(n, pool, podID, pool')
    ensures PoolOk(n, pool')
  {
    hide Pow2;
    var j :| IsNext(n, pool, j) && pool' == pool[Addr(n, j) := podID];
    assert Assignable(n, j);
  }

  lemma ReleaseKeeps(n: Net4, pool: Pool, podID: string, pool': Pool)
    requires PoolOk(n, pool) && Releases(pool, podID, pool')
    ensures PoolOk(n, pool')
  {
    hide Pow2;
  }

  /** Releasing what a pod without addresses was just given restores the pool. */
  lemma ReleaseRestores(n: Net4, pool: Pool, podID: string, pool': Pool, pool'': Pool)
    requires Allocates(n, pool, podID, pool') && Releases(pool', podID, pool'')
    requires forall a :: a in pool ==> pool[a] != podID
    ensures pool'' == pool
  {
    hide Pow2;
    var j :| IsNext(n, pool, j) && pool' == pool[Addr(n, j) := podID];
    var a :| a in pool' && pool'[a] == podID && pool'' == pool' - {a};
    assert a == Addr(n, j);
  }

  /** Addresses in use are inside the network of the node, and are neither the address of the
      network nor the gateway; the sum never wraps. */
  lemma AssignedInside(subnet: Net4, hostID: uint8, plen: uint8, pool: Pool, a: uint32)
    requires ValidConfig(subnet, plen) && PoolOk(ApplyHostID(subnet, hostID, plen), pool) && a in pool
    ensures var n := ApplyHostID(subnet, hostID, plen);
            n.plen <= 32 && n.ip + 1 < a < n.ip + Size(n) <= WORD && InNet(n, a)
  {
    hide Pow2, ApplyHostID, ConvertToHostIPPart, InNet, Addr, Assignable;
    var n := ApplyHostID(subnet, hostID, plen);
    NetworkIs(subnet, hostID, plen);
    var j :| Assignable(n, j) && a == Addr(n, j);
    var x := Pow2(plen - subnet.plen) * (subnet.ip / Pow2(32 - subnet.plen)) + ConvertToHostIPPart(hostID, plen - subnet.plen);
    AddrInside(n, j, x);
  }

  lemma AddrInside(n: Net4, j: nat, x: nat)
    requires Assignable(n, j) && n.ip == Size(n) * x && n.ip + Size(n) <= WORD
    ensures n.ip + 1 < Addr(n, j) < n.ip + Size(n) && InNet(n, Addr(n, j))
  {
    hide Pow2;
    SameBlock(n.ip, j, Size(n), x);
  }

  lemma SameBlock(ip: nat, j: nat, size: nat, x: nat)
    requires ip == size * x && j < size
    ensures (ip + j) / size == ip / size
  {
    ModIs(ip, size, x, 0);
    ModIs(ip + j, size, x, j);
  }

  // ----- The pool in numbers -----

  /** How far an address is past that of the network, in uint32. */
  function Distance(n: Net4, a: uint32): uint32 { (a - n.ip) % WORD }

  lemma DistanceOfAddr(n: Net4, j: nat)
    requires j < WORD
    ensures Distance(n, Addr(n, j)) == j
  {
    if n.ip + j < WORD {
      Unwrapped(j, WORD);
    } else {
      ModIs(n.ip + j, WORD, 1, n.ip + j - WORD);
      ModIs(Addr(n, j) - n.ip, WORD, -1, j);
    }
  }

  lemma AddrAtDistance(n: Net4, a: uint32)
    ensures Addr(n, Distance(n, a)) == a
  {
    if a >= n.ip {
      Unwrapped(a - n.ip, WORD);
    } else {
      ModIs(a - n.ip, WORD, -1, a - n.ip + WORD);
      ModIs(a + WORD, WORD, 1, a);
    }
  }

  lemma SizeFits(n: Net4)
    requires n.plen <= 32
    ensures Size(n) <= WORD
  {
    hide Pow2;
    Pow2Values();
    Pow2Monotone(32 - n.plen, 32);
  }

  /** The address with the least free sequence number is the first free one past the gateway. */
  lemma NextInNumbers(n: Net4, pool: Pool, j: nat)
    requires IsNext(n, pool, j)
    ensures 1 < Distance(n, Addr(n, j)) < Size(n)
    ensures forall a: uint32 :: 1 < Distance(n, a) < Distance(n, Addr(n, j)) ==> a in pool
  {
    hide Addr, Distance, Size;
    SizeFits(n);
    DistanceOfAddr(n, j);
    forall a: uint32 | 1 < Distance(n, a) < j ensures a in pool {
      AddrAtDistance(n, a);
      assert Assignable(n, Distance(n, a));
    }
  }

  lemma FullInNumbers(n: Net4, pool: Pool)
    requires n.plen <= 32
    ensures IsFull(n, pool) <==> forall a: uint32 :: 1 < Distance(n, a) < Size(n) ==> a in pool
  {
    hide Addr, Distance, Size;
    SizeFits(n);
    if IsFull(n, pool) {
      forall a: uint32 | 1 < Distance(n, a) < Size(n) ensures a in pool {
        AddrAtDistance(n, a);
        assert Assignable(n, Distance(n, a));
      }
    }
    if forall a: uint32 :: 1 < Distance(n, a) < Size(n) ==> a in pool {
      forall j | Assignable(n, j) ensures Addr(n, j) in pool {
        DistanceOfAddr(n, j);
      }
    }
  }

  /** Where the network ends within the address space, the distance is a difference. */
  lemma DistanceIs(n: Net4, a: uint32, k: nat)
    requires n.ip + k <= WORD
    ensures Distance(n, a) < k <==> n.ip <= a < n.ip + k
    ensures n.ip <= a ==> Distance(n, a) == a - n.ip
  {
    if a >= n.ip {
      Unwrapped(a - n.ip, WORD);
    } else {
      ModIs(a - n.ip, WORD, -1, a - n.ip + WORD);
    }
  }

  lemma PlainNumbers(n: Net4, pool: Pool, k: nat)
    requires n.ip + k <= WORD
    ensures (forall a: uint32 :: 1 < Distance(n, a) < k ==> a in pool) <==>
            (forall a :: n.ip + 1 < a < n.ip + k ==> a in pool)
  {
    hide Distance;
    if forall a: uint32 :: 1 < Distance(n, a) < k ==> a in pool {
      forall a | n.ip + 1 < a < n.ip + k ensures a in pool {
        DistanceIs(n, a, k);
      }
    }
    if forall a :: n.ip + 1 < a < n.ip + k ==> a in pool {
      forall a: uint32 | 1 < Distance(n, a) < k ensures a in pool {
        DistanceIs(n, a, k);
      }
    }
  }

  /** The network ends within the address space; those of a node do unless the prefix is oversized. */
  predicate Ends(n: Net4) { n.plen <= 32 && n.ip + Pow2(32 - n.plen) <= WORD }

  lemma NetworkEnds(subnet: Net4, hostID: uint8, plen: uint8)
    requires ValidConfig(subnet, plen)
    ensures Ends(ApplyHostID(subnet, hostID, plen))
  {
    hide Pow2, ApplyHostID;
    NetworkIs(subnet, hostID, plen);
  }

  /** In a network of at least two addresses the gateway is the second. */
  lemma GatewayInside(subnet: Net4, hostID: uint8, plen: uint8)
    requires ValidConfig(subnet, plen) && plen < 32
    ensures var n := ApplyHostID(subnet, hostID, plen);
            n.plen == plen && n.ip + 1 < n.ip + Pow2(32 - plen) <= WORD && (n.ip + 1) % WORD == n.ip + 1
  {
    hide Pow2, ApplyHostID, ConvertToHostIPPart;
    NetworkIs(subnet, hostID, plen);
    Pow2Below(0, 32 - plen);
    Unwrapped(ApplyHostID(subnet, hostID, plen).ip + 1, WORD);
  }

  /** The address a is the first free one of the network past the gateway. */
  lemma NextIsFirstFree(n: Net4, pool: Pool, j: nat)
    requires IsNext(n, pool, j) && Ends(n)
    ensures var a := Addr(n, j);
            n.ip + 1 < a < n.ip + Pow2(32 - n.plen) && forall b :: n.ip + 1 < b < a ==> b in pool
  {
    hide Addr, Distance, IsNext, Pow2;
    var a := Addr(n, j);
    NextInNumbers(n, pool, j);
    DistanceIs(n, a, Pow2(32 - n.plen));
    PlainNumbers(n, pool, Distance(n, a));
  }

  lemma FullIsNoneFree(n: Net4, pool: Pool)
    requires Ends(n)
    ensures IsFull(n, pool) <==> forall a :: n.ip + 1 < a < n.ip + Pow2(32 - n.plen) ==> a in pool
  {
    hide Addr, Distance, IsFull, Pow2;
    FullInNumbers(n, pool);
    PlainNumbers(n, pool, Pow2(32 - n.plen));
  }

  /** Subnets with the prefix lengths of the networks of one node, and the subnet of the nodes. */
  datatype Config = Config(pods: Subnet, podPlen: uint8, vSwitch: Subnet, vSwitchPlen: uint8, nodes: Subnet)

  /** A subnet in IPv4 that leaves room for the network of a node. */
  predicate Usable(subnet: Subnet, plen: uint8) {
    subnet.V4? && subnet.net.plen < plen
  }

  const VETH_VPP_END_SEQ_ID := 1
  const VETH_HOST_END_SEQ_ID := 2

  class IPAM {
    const hostID: uint8
    const podSubnet: Net4
    const podNetwork: Net4
    const podNetworkGatewayIP: uint32
    const vSwitchNetwork: Net4
    const vethVPPEndIP: uint32
    const vethHostEndIP: uint32
    var assignedPodIPs: Pool

    ghost predicate Valid()
      reads this
    {
      PoolOk(podNetwork, assignedPodIPs)
    }

    constructor (hostID: uint8, subnet: Net4, network: Net4, vSwitchNetwork: Net4)
      requires network.plen <= 32
      ensures this.hostID == hostID && podSubnet == subnet && podNetwork == network && this.vSwitchNetwork == vSwitchNetwork
      ensures podNetworkGatewayIP == Addr(network, GATEWAY_SEQ_ID) == (network.ip + 1) % WORD
      ensures vethVPPEndIP == Addr(vSwitchNetwork, VETH_VPP_END_SEQ_ID) == (vSwitchNetwork.ip + 1) % WORD
      ensures vethHostEndIP == Addr(vSwitchNetwork, VETH_HOST_END_SEQ_ID) == (vSwitchNetwork.ip + 2) % WORD
      ensures Valid() && assignedPodIPs == map[]
    {
      this.hostID, podSubnet, podNetwork, this.vSwitchNetwork := hostID, subnet, network, vSwitchNetwork;
      podNetworkGatewayIP := Addr(network, GATEWAY_SEQ_ID);
      vethVPPEndIP, vethHostEndIP := Addr(vSwitchNetwork, VETH_VPP_END_SEQ_ID), Addr(vSwitchNetwork, VETH_HOST_END_SEQ_ID);
      assignedPodIPs := map[];
    }

    /** New; null is an error. */
    static method New(hostID: uint8, config: Config) returns (ipam: IPAM?)
      ensures ipam == null <==>
              !Usable(config.pods, config.podPlen) || !Usable(config.vSwitch, config.vSwitchPlen) || config.nodes.Unparsable?
      ensures ipam != null ==> fresh(ipam) && ipam.Valid() && ipam.hostID == hostID && ipam.assignedPodIPs == map[]
      ensures ipam != null ==>
                && ipam.podSubnet == config.pods.net && ipam.podNetwork == ApplyHostID(config.pods.net, hostID, config.podPlen)
                && ipam.vSwitchNetwork == ApplyHostID(config.vSwitch.net, hostID, config.vSwitchPlen)
                && ipam.podNetworkGatewayIP == (ipam.podNetwork.ip + 1) % WORD
                && ipam.vethVPPEndIP == (ipam.vSwitchNetwork.ip + 1) % WORD
                && ipam.vethHostEndIP == (ipam.vSwitchNetwork.ip + 2) % WORD
      ensures ipam != null && ValidConfig(config.pods.net, config.podPlen) && config.podPlen < 32 ==>
                ipam.podNetworkGatewayIP == ipam.podNetwork.ip + 1
    {
      hide Pow2, And, ConvertToHostIPPart, Canonical4;
      var pods := ConvertConfigNotation(config.pods, config.podPlen, hostID);
      if pods.None? {
        return null;
      }
      var vSwitch := ConvertConfigNotation(config.vSwitch, config.vSwitchPlen, hostID);
      if vSwitch.None? {
        return null;
      }
      if config.nodes.Unparsable? {
        return null;
      }
      ipam := new IPAM(hostID, pods.value.0, pods.value.1, vSwitch.value.1);
      if ValidConfig(config.pods.net, config.podPlen) && config.podPlen < 32 {
        GatewayInside(config.pods.net, hostID, config.podPlen);
      }
    }

    /** OtherHostPodNetwork */
    method OtherHostPodNetwork(other: uint8) returns (network: Net4)
      requires Valid()
      ensures forall plen: uint8 :: podNetwork == ApplyHostID(podSubnet, hostID, plen) ==> network == ApplyHostID(podSubnet, other, plen)
    {
      hide ApplyHostID;
      PoolPlen(podNetwork, assignedPodIPs);
      network := ApplyHostID(podSubnet, other, podNetwork.plen);
      forall plen: uint8 | podNetwork == ApplyHostID(podSubnet, hostID, plen) ensures network == ApplyHostID(podSubnet, other, plen) {
        OtherNetworkIsOwn(podSubnet, hostID, other, plen);
      }
    }

    /** The first free address past the gateway is handed out, counted from that of the network in
        uint32; there is none exactly if all are taken. */
    method NextPodIP(podID: string) returns (ip: Option<uint32>)
      requires Valid()
      modifies `assignedPodIPs
      ensures Valid()
      ensures ip.None? <==> podID == "" || IsFull(podNetwork, old(assignedPodIPs))
      ensures ip.None? ==> assignedPodIPs == old(assignedPodIPs)
      ensures ip.Some? ==> Allocates(podNetwork, old(assignedPodIPs), podID, assignedPodIPs)
      ensures ip.Some? ==> ip.value !in old(assignedPodIPs) && assignedPodIPs == old(assignedPodIPs)[ip.value := podID]
      ensures podNetwork.plen <= 32
      ensures ip.Some? ==>
                && 1 < Distance(podNetwork, ip.value) < Size(podNetwork)
                && (forall a: uint32 :: 1 < Distance(podNetwork, a) < Distance(podNetwork, ip.value) ==> a in old(assignedPodIPs))
      ensures ip.None? && podID != "" ==>
                forall a: uint32 :: 1 < Distance(podNetwork, a) < Size(podNetwork) ==> a in old(assignedPodIPs)
      ensures Ends(podNetwork) && ip.Some? ==>
                && podNetwork.ip + 1 < ip.value < podNetwork.ip + Pow2(32 - podNetwork.plen)
                && (forall a :: podNetwork.ip + 1 < a < ip.value ==> a in old(assignedPodIPs))
      ensures Ends(podNetwork) && podID != "" ==>
                (ip.None? <==> forall a :: podNetwork.ip + 1 < a < podNetwork.ip + Pow2(32 - podNetwork.plen) ==> a in old(assignedPodIPs))
    {
      hide Pow2, PoolOk, Addr, Distance, Ends;
      PoolPlen(podNetwork, assignedPodIPs);
      FullInNumbers(podNetwork, assignedPodIPs);
      if Ends(podNetwork) { FullIsNoneFree(podNetwork, assignedPodIPs); }
      if podID == "" {
        return None;
      }
      var maxSeqID := Pow2(32 - podNetwork.plen);
      var j := 1;
      while j < maxSeqID
        invariant 1 <= j && assignedPodIPs == old(assignedPodIPs)
        invariant forall i: nat :: Assignable(podNetwork, i) && i < j ==> Addr(podNetwork, i) in assignedPodIPs
      {
        if j != GATEWAY_SEQ_ID && Addr(podNetwork, j) !in assignedPodIPs {
          ghost var before := assignedPodIPs;
          assert IsNext(podNetwork, before, j);
          NextInNumbers(podNetwork, before, j);
          if Ends(podNetwork) { NextIsFirstFree(podNetwork, before, j); }
          assignedPodIPs := assignedPodIPs[Addr(podNetwork, j) := podID];
          AllocateKeeps(podNetwork, before, podID, assignedPodIPs);
          return Some(Addr(podNetwork, j));
        }
        j := j + 1;
      }
      return None;
    }

    /** Takes back an address of the pod; an empty ID is ignored. */
    method ReleasePodIP(podID: string) returns (ok: bool)
      requires Valid()
      modifies `assignedPodIPs
      ensures Valid()
      ensures ok <==> podID == "" || exists a :: a in old(assignedPodIPs) && old(assignedPodIPs)[a] == podID
      ensures if ok && podID != "" then Releases(old(assignedPodIPs), podID, assignedPodIPs)
              else assignedPodIPs == old(assignedPodIPs)
    {
      hide PoolOk;
      if podID == "" {
        return true;
      }
      var ip := FindIP(podID);
      if ip.None? {
        return false;
      }
      ghost var before := assignedPodIPs;
      assignedPodIPs := assignedPodIPs - {ip.value};
      ReleaseKeeps(podNetwork, before, podID, assignedPodIPs);
      return true;
    }

    method FindIP(podID: string) returns (ip: Option<uint32>)
      ensures ip.None? <==> forall a :: a in assignedPodIPs ==> assignedPodIPs[a] != podID
      ensures ip.Some? ==> ip.value in assignedPodIPs && assignedPodIPs[ip.value] == podID
    {
      var todo := assignedPodIPs.Keys;
      while todo != {}
        invariant todo <= assignedPodIPs.Keys
        invariant forall a :: a in assignedPodIPs && a !in todo ==> assignedPodIPs[a] != podID
        decreases todo
      {
        Nonempty(todo);
        var a :| a in todo;
        if assignedPodIPs[a] == podID {
          return Some(a);
        }
        todo := todo - {a};
      }
      return None;
    }
  }

  lemma PoolPlen(n: Net4, pool: Pool)
    requires PoolOk(n, pool)
    ensures n.plen <= 32
  {
  }
}
