/**
 Subnet arithmetic of the DHCP server. Addresses and masks are words in network byte
 order as a little-endian host reads them; `Htonl` gives the host-order number.
 */
module AddressUtils {
  import opened Words

  const IPV4_ADDRESS_BITS: nat := 32

  function NetworkAddress(ip: u32, netmask: u32): u32 {
    And(ip, netmask)
  }

  function FirstIpAddress(ip: u32, netmask: u32): u32 {
    Htonl(Add32(Htonl(NetworkAddress(ip, netmask)), 1))
  }

  /** Position of the lowest set bit of `net` at or above `k`, 32 if there is none. */
  function LowestSetBit(net: u32, k: nat): (b: nat)
    requires 1 <= k <= IPV4_ADDRESS_BITS
    ensures k <= b <= IPV4_ADDRESS_BITS
    ensures forall j :: k <= j < b ==> !BitSet(net, j)
    ensures b < IPV4_ADDRESS_BITS ==> BitSet(net, b)
    decreases IPV4_ADDRESS_BITS - k
  {
    if k == IPV4_ADDRESS_BITS || BitSet(net, k) then k else LowestSetBit(net, k + 1)
  }

  function HostBits(netmask: u32): (b: nat)
    ensures 1 <= b <= IPV4_ADDRESS_BITS
  {
    LowestSetBit(Htonl(netmask), 1)
  }

  function HostTotal(netmask: u32): (r: u32)
    ensures r >= 1
  {
    Pow2Values();
    Pow2Monotone(HostBits(netmask), 32);
    Pow2Monotone(1, HostBits(netmask));
    Pow2(HostBits(netmask)) - 1
  }

  function BroadCastAddress(ip: u32, netmask: u32): u32 {
    Htonl(Add32(Htonl(NetworkAddress(ip, netmask)), HostTotal(netmask)))
  }

  function LastIpAddress(ip: u32, netmask: u32): u32 {
    var lastIp := Add32(Htonl(NetworkAddress(ip, netmask)), HostTotal(netmask));
    Htonl(if lastIp != 0 then lastIp - 1 else lastIp)
  }

  function NextIpAddress(currIp: u32, netmask: u32, offset: u32): u32 {
    var network := NetworkAddress(currIp, netmask);
    var lastIp := LastIpAddress(currIp, netmask);
    var hostTotal := HostTotal(netmask);
    if currIp == lastIp || currIp == BroadCastAddress(currIp, netmask) then
      FirstIpAddress(currIp, netmask)
    else
      var next := if offset > hostTotal && hostTotal > 0 then offset % hostTotal else offset;
      var nextIp := Add32(Add32(Htonl(currIp), next), 1);
      Htonl(if next != 0 && nextIp > Htonl(lastIp)
            then Add32(Htonl(network), Sub32(nextIp, Htonl(lastIp)))
            else nextIp)
  }

  predicate IpInNetwork(ip: u32, network: u32, netmask: u32) {
    && NetworkAddress(ip, netmask) == NetworkAddress(network, netmask)
    && FirstIpAddress(network, netmask) <= ip <= BroadCastAddress(network, netmask)
  }

  /** The range test of the server: words compared in network byte order. */
  predicate IpInRange(ip: u32, beginIp: u32, endIp: u32, netmask: u32) {
    && NetworkAddress(ip, netmask) == NetworkAddress(beginIp, netmask) == NetworkAddress(endIp, netmask)
    && beginIp <= ip <= endIp
  }

  /** The range test a reader would expect: numbers compared in host byte order. */
  predicate HostInRange(ip: u32, beginIp: u32, endIp: u32) {
    Htonl(beginIp) <= Htonl(ip) <= Htonl(endIp)
  }

  // ----- The loops -----

  method HostBitsLoop(netmask: u32) returns (bits: nat)
    ensures bits == HostBits(netmask)
  {
    bits := 0;
    var net := Htonl(netmask);
    var i := IPV4_ADDRESS_BITS;
    while i > 0
      invariant 0 <= i <= IPV4_ADDRESS_BITS
      invariant bits == IPV4_ADDRESS_BITS - i
      invariant net == ShiftRight(Htonl(netmask), bits)
      invariant forall j :: 1 <= j <= bits ==> !BitSet(Htonl(netmask), j)
    {
      ShiftOnce(Htonl(netmask), bits);
      bits := bits + 1;
      net := net / 2;
      if net % 2 != 0 {
        break;
      }
      i := i - 1;
    }
    Pow2Values();
    ShiftOut(Htonl(netmask), 32);
    LowestSetBitUnique(Htonl(netmask), bits);
  }

  lemma {:induction false} LowestSetBitUnique(net: u32, b: nat)
    requires 1 <= b <= IPV4_ADDRESS_BITS
    requires forall j :: 1 <= j < b ==> !BitSet(net, j)
    requires b < IPV4_ADDRESS_BITS ==> BitSet(net, b)
    ensures LowestSetBit(net, 1) == b
  {
    hide BitSet;
  }

  method HostTotalLoop(netmask: u32) returns (total: u32)
    ensures total == HostTotal(netmask)
  {
    hide HostBits;
    var hostBits := HostBitsLoop(netmask);
    var product := 1;
    var i := 0;
    while i < hostBits
      invariant i <= hostBits <= 32
      invariant product == Pow2(i) % WORD_SIZE
    {
      DoubleModWord(Pow2(i));
      product := product * 2 % WORD_SIZE;
      i := i + 1;
    }
    total := Sub32(product, 1);
    Pow2Values();
    Pow2Monotone(hostBits, 32);
    PredModWord(Pow2(hostBits));
  }

  lemma DoubleModWord(x: nat)
    ensures x % WORD_SIZE * 2 % WORD_SIZE == 2 * x % WORD_SIZE
  {
  }

  lemma PredModWord(x: nat)
    requires 1 <= x <= WORD_SIZE
    ensures Sub32(x % WORD_SIZE, 1) == x - 1
  {
  }

  // ----- Contiguous masks -----

  /** The mask with prefix length `p`, in network byte order. */
  function Mask(p: nat): u32
    requires p <= 32
  {
    Pow2Values();
    Pow2Monotone(32 - p, 32);
    Htonl(WORD_SIZE - Pow2(32 - p))
  }

  /** The host part of an address under prefix length `p`. */
  function HostPart(ip: u32, p: nat): (r: nat)
    requires p <= 32
    ensures r < Pow2(32 - p)
  {
    LowBits(Htonl(ip), 32 - p)
  }

  /** The network part of an address under prefix length `p`, in host byte order. */
  function NetPart(ip: u32, p: nat): nat
    requires p <= 32
  {
    Htonl(ip) - LowBits(Htonl(ip), 32 - p)
  }

  lemma {:induction false} NetFits(x: nat, n: nat, h: nat)
    requires h <= n && x < Pow2(n)
    ensures x - LowBits(x, h) + Pow2(h) <= Pow2(n)
    decreases h
  {
    if h > 0 {
      NetFits(x / 2, n - 1, h - 1);
    }
  }

  lemma LowBitsOfSum(x: nat, h: nat, o: nat)
    requires o < Pow2(h)
    ensures LowBits(x - LowBits(x, h) + o, h) == o
    decreases h
  {
    if h > 0 {
      LowBitsOfSum(x / 2, h - 1, o / 2);
      var y := x - LowBits(x, h) + o;
      assert y / 2 == x / 2 - LowBits(x / 2, h - 1) + o / 2 && y % 2 == o % 2;
    }
  }

  lemma {:induction false} MaskInHostOrder(p: nat)
    requires p <= 32
    ensures Pow2(32) == WORD_SIZE && Pow2(32 - p) <= WORD_SIZE
    ensures Htonl(Mask(p)) == WORD_SIZE - Pow2(32 - p)
  {
    Pow2Values();
    Pow2Monotone(32 - p, 32);
    hide Htonl, Pow2;
    HtonlInvolution(WORD_SIZE - Pow2(32 - p));
  }

  /** Applying a contiguous mask clears the host part. */
  lemma NetworkOfMask(ip: u32, p: nat)
    requires p <= 32
    ensures Htonl(NetworkAddress(ip, Mask(p))) == NetPart(ip, p)
  {
    hide Htonl, Pow2, Bits, LowBits, Mask;
    MaskInHostOrder(p);
    BitsHtonl(AndOp, ip, Mask(p));
    AndHighMask(Htonl(ip), 32, 32 - p);
  }

  lemma SameNetworkIff(x: u32, y: u32, p: nat)
    requires p <= 32
    ensures NetworkAddress(x, Mask(p)) == NetworkAddress(y, Mask(p)) <==> NetPart(x, p) == NetPart(y, p)
  {
    NetworkOfMask(x, p);
    NetworkOfMask(y, p);
    HtonlInvolution(NetworkAddress(x, Mask(p)));
    HtonlInvolution(NetworkAddress(y, Mask(p)));
  }

  /** `HostTotal` counts the addresses of the subnet other than the network address. */
  lemma {:induction false} HostTotalOfMask(p: nat)
    requires 1 <= p <= 31
    ensures HostBits(Mask(p)) == 32 - p
    ensures HostTotal(Mask(p)) == Pow2(32 - p) - 1
  {
    hide Htonl, ShiftRight, BitSet, Mask, Pow2;
    MaskInHostOrder(p);
    HighMaskBit(32, 32 - p, 32 - p);
    var b := HostBits(Mask(p));
    if b < 32 {
      HighMaskBit(32, 32 - p, b);
    }
  }

  lemma {:induction false} BroadcastOfMask(ip: u32, p: nat)
    requires 1 <= p <= 31
    ensures NetPart(ip, p) + Pow2(32 - p) <= WORD_SIZE
    ensures Htonl(BroadCastAddress(ip, Mask(p))) == NetPart(ip, p) + Pow2(32 - p) - 1
  {
    hide Htonl, LowBits, HostBits, Mask;
    Pow2Values();
    NetworkOfMask(ip, p);
    HostTotalOfMask(p);
    NetFits(Htonl(ip), 32, 32 - p);
    HtonlInvolution(NetPart(ip, p) + Pow2(32 - p) - 1);
  }

  /** The broadcast address found by counting host bits is the bitwise one put into replies. */
  lemma BroadcastIsBitwise(ip: u32, p: nat)
    requires 1 <= p <= 31
    ensures BroadCastAddress(ip, Mask(p)) == Or(Not(Mask(p)), NetworkAddress(ip, Mask(p)))
  {
    hide Htonl, BroadCastAddress, NetworkAddress, Mask, Or, Not, NetPart, Pow2;
    var net := NetworkAddress(ip, Mask(p));
    NetworkOfMask(ip, p);
    BroadcastOfMask(ip, p);
    WildcardOfMask(p);
    OrOfHtonl(Not(Mask(p)), net);
    NetWithOnes(ip, p);
    HtonlInjective(BroadCastAddress(ip, Mask(p)), Or(Not(Mask(p)), net));
  }

  lemma {:induction false} WildcardOfMask(p: nat)
    requires 1 <= p <= 31
    ensures Pow2(32 - p) <= WORD_SIZE && Htonl(Not(Mask(p))) == Pow2(32 - p) - 1
  {
    MaskInHostOrder(p);
    hide Htonl, Pow2, Mask;
    NotHtonl(Mask(p));
  }

  lemma OrOfHtonl(x: u32, y: u32)
    ensures Htonl(Or(x, y)) == Or(Htonl(x), Htonl(y))
  {
    hide Htonl, Bits;
    BitsHtonl(OrOp, x, y);
  }

  lemma {:induction false} NetWithOnes(ip: u32, p: nat)
    requires 1 <= p <= 31
    ensures 0 <= NetPart(ip, p) < WORD_SIZE && Pow2(32 - p) <= WORD_SIZE
    ensures Or(Pow2(32 - p) - 1, NetPart(ip, p)) == NetPart(ip, p) + Pow2(32 - p) - 1
  {
    Pow2Values();
    Pow2Monotone(32 - p, 32);
    NetFits(Htonl(ip), 32, 32 - p);
    var q := NetQuotient(Htonl(ip), 32 - p);
    hide Htonl, Bits, Pow2, LowBits;
    OrDisjoint(q, Pow2(32 - p) - 1, 32 - p);
  }

  /** The network part is a multiple of the subnet size. */
  lemma NetQuotient(x: nat, h: nat) returns (q: nat)
    ensures x - LowBits(x, h) == q * Pow2(h)
  {
    if h == 0 {
      q := x;
    } else {
      q := NetQuotient(x / 2, h - 1);
      DoubleMul(q, Pow2(h - 1));
    }
  }

  // ----- The successor walk -----

  function NextHost(net: nat, host: nat, size: nat): nat
    requires size >= 4
  {
    if host >= size - 2 then net + 1 else net + host + 1
  }

  lemma {:induction false} EndsOfMask(ip: u32, p: nat)
    requires 1 <= p <= 30
    ensures Pow2(32 - p) >= 4 && NetPart(ip, p) + Pow2(32 - p) <= WORD_SIZE
    ensures Htonl(FirstIpAddress(ip, Mask(p))) == NetPart(ip, p) + 1
    ensures Htonl(LastIpAddress(ip, Mask(p))) == NetPart(ip, p) + Pow2(32 - p) - 2
    ensures Htonl(BroadCastAddress(ip, Mask(p))) == NetPart(ip, p) + Pow2(32 - p) - 1
  {
    hide Htonl, LowBits, HostBits, Mask, BroadCastAddress, NetworkAddress;
    Pow2Values();
    Pow2Monotone(2, 32 - p);
    BroadcastOfMask(ip, p);
    NetworkOfMask(ip, p);
    HostTotalOfMask(p);
    HtonlInvolution(NetPart(ip, p) + 1);
    HtonlInvolution(NetPart(ip, p) + Pow2(32 - p) - 2);
  }

  /** With offset 0 the successor steps through the hosts and wraps from last (or broadcast) to first. */
  lemma {:induction false} NextOfMask(ip: u32, p: nat)
    requires 1 <= p <= 30
    ensures Pow2(32 - p) >= 4
    ensures Htonl(NextIpAddress(ip, Mask(p), 0)) == NextHost(NetPart(ip, p), HostPart(ip, p), Pow2(32 - p))
  {
    hide Htonl, LowBits, Mask, BroadCastAddress, LastIpAddress, FirstIpAddress, NextIpAddress, Pow2;
    EndsOfMask(ip, p);
    NextByOne(ip, Mask(p));
    HtonlInjective(ip, LastIpAddress(ip, Mask(p)));
    HtonlInjective(ip, BroadCastAddress(ip, Mask(p)));
    HtonlInvolution(Add32(Htonl(ip), 1));
  }

  lemma NextByOne(ip: u32, netmask: u32)
    ensures NextIpAddress(ip, netmask, 0) ==
            if ip == LastIpAddress(ip, netmask) || ip == BroadCastAddress(ip, netmask)
            then FirstIpAddress(ip, netmask) else Htonl(Add32(Htonl(ip), 1))
  {
    hide Htonl, HostTotal, BroadCastAddress, NetworkAddress, LastIpAddress, FirstIpAddress;
  }

  lemma HtonlInjective(x: u32, y: u32)
    ensures Htonl(x) == Htonl(y) <==> x == y
  {
    hide Htonl;
    HtonlInvolution(x);
    HtonlInvolution(y);
  }

  function Walk(ip: u32, netmask: u32, steps: nat): u32 {
    if steps == 0 then ip else NextIpAddress(Walk(ip, netmask, steps - 1), netmask, 0)
  }

  lemma {:induction false} PartsOfHost(ip: u32, net: nat, host: nat, p: nat, x: u32)
    requires p <= 32 && net == NetPart(x, p) && host < Pow2(32 - p) && Htonl(ip) == net + host
    ensures NetPart(ip, p) == net && HostPart(ip, p) == host
  {
    LowBitsOfSum(Htonl(x), 32 - p, host);
  }

  /** Position reached on a ring of `n` places, `steps` places on from `start`. */
  function RingIndex(start: nat, steps: nat, n: nat): (r: nat)
    requires start < n
    ensures r < n
  {
    if steps == 0 then start
    else
      var prev := RingIndex(start, steps - 1, n);
      if prev == n - 1 then 0 else prev + 1
  }

  lemma {:induction false} RingIndexValue(start: nat, steps: nat, n: nat)
    requires start < n && start + steps < 2 * n
    ensures RingIndex(start, steps, n) == if start + steps < n then start + steps else start + steps - n
  {
    if steps > 0 {
      RingIndexValue(start, steps - 1, n);
    }
  }

  /** After its first step the walk is at a host of the subnet, and from a host it goes round the ring of hosts. */
  lemma {:induction false} WalkPosition(ip: u32, p: nat, steps: nat)
    requires 1 <= p <= 30
    ensures Pow2(32 - p) >= 4
    ensures NetPart(Walk(ip, Mask(p), steps), p) == NetPart(ip, p)
    ensures steps >= 1 ==> 1 <= HostPart(Walk(ip, Mask(p), steps), p) <= Pow2(32 - p) - 2
    ensures 1 <= HostPart(ip, p) <= Pow2(32 - p) - 2 ==>
              HostPart(Walk(ip, Mask(p), steps), p) == 1 + RingIndex(HostPart(ip, p) - 1, steps, Pow2(32 - p) - 2)
  {
    hide Htonl, LowBits, Mask, NextIpAddress;
    Pow2Monotone(2, 32 - p);
    if steps > 0 {
      var prev := Walk(ip, Mask(p), steps - 1);
      WalkPosition(ip, p, steps - 1);
      NextOfMask(prev, p);
      var next := NextHost(NetPart(prev, p), HostPart(prev, p), Pow2(32 - p));
      PartsOfHost(Walk(ip, Mask(p), steps), NetPart(ip, p), next - NetPart(ip, p), p, prev);
    }
  }

  lemma {:induction false} WalkSplit(ip: u32, netmask: u32, i: nat, j: nat)
    ensures Walk(ip, netmask, i + j) == Walk(Walk(ip, netmask, i), netmask, j)
  {
    hide NextIpAddress;
    if j > 0 {
      WalkSplit(ip, netmask, i, j - 1);
    }
  }

  /** From any address of a subnet /1 to /30, `HostTotal` successors are enough to meet every host. */
  lemma WalkCoversHosts(ip: u32, p: nat, host: u32) returns (steps: nat)
    requires 1 <= p <= 30
    requires NetPart(host, p) == NetPart(ip, p) && 1 <= HostPart(host, p) <= Pow2(32 - p) - 2
    ensures 1 <= steps <= HostTotal(Mask(p))
    ensures Walk(ip, Mask(p), steps) == host
  {
    hide Htonl, Mask, HostTotal, NetPart, HostPart, Pow2, Walk, RingIndex;
    HostTotalOfMask(p);
    var n := Pow2(32 - p) - 2;
    var first := Walk(ip, Mask(p), 1);
    WalkPosition(ip, p, 1);
    var start, target := HostPart(first, p) - 1, HostPart(host, p) - 1;
    var more := if target >= start then target - start else target + n - start;
    WalkPosition(first, p, more);
    RingIndexValue(start, more, n);
    WalkSplit(ip, Mask(p), 1, more);
    steps := 1 + more;
    SameParts(host, Walk(ip, Mask(p), steps), p);
  }

  lemma SameParts(x: u32, y: u32, p: nat)
    requires p <= 32 && NetPart(x, p) == NetPart(y, p) && HostPart(x, p) == HostPart(y, p)
    ensures x == y
  {
    hide Htonl, LowBits;
    HtonlInjective(x, y);
  }

  /** The hosts form one cycle: no host repeats before all were met, and then the walk is back. */
  lemma WalkIsOneCycle(ip: u32, p: nat, i: nat, j: nat)
    requires 1 <= p <= 30
    requires 1 <= HostPart(ip, p) <= Pow2(32 - p) - 2
    requires i < j < Pow2(32 - p) - 2
    ensures Walk(ip, Mask(p), i) != Walk(ip, Mask(p), j)
    ensures Walk(ip, Mask(p), Pow2(32 - p) - 2) == ip
  {
    hide Htonl, Mask, NetPart, HostPart, Pow2, Walk, RingIndex;
    var n := Pow2(32 - p) - 2;
    WalkPosition(ip, p, i);
    WalkPosition(ip, p, j);
    WalkPosition(ip, p, n);
    RingIndexValue(HostPart(ip, p) - 1, i, n);
    RingIndexValue(HostPart(ip, p) - 1, j, n);
    RingIndexValue(HostPart(ip, p) - 1, n, n);
    SameParts(ip, Walk(ip, Mask(p), n), p);
  }

  // ----- Network order against host order -----

  /** From /24 on, comparing in network byte order is comparing in host byte order. */
  lemma RangeOrdersAgree(ip: u32, beginIp: u32, endIp: u32, p: nat)
    requires 24 <= p <= 32
    requires NetworkAddress(beginIp, Mask(p)) == NetworkAddress(endIp, Mask(p))
    requires NetworkAddress(ip, Mask(p)) == NetworkAddress(beginIp, Mask(p))
    ensures IpInRange(ip, beginIp, endIp, Mask(p)) <==> HostInRange(ip, beginIp, endIp)
  {
    hide Octet, Mask, NetworkAddress;
    SharedOctets(ip, beginIp, p);
    SharedOctets(endIp, beginIp, p);
    JoinOctets(ip);
    JoinOctets(beginIp);
    JoinOctets(endIp);
  }

  lemma {:induction false} SharedOctets(x: u32, y: u32, p: nat)
    requires 24 <= p <= 32
    requires NetworkAddress(x, Mask(p)) == NetworkAddress(y, Mask(p))
    ensures Octet(x, 0) == Octet(y, 0) && Octet(x, 1) == Octet(y, 1) && Octet(x, 2) == Octet(y, 2)
  {
    hide Htonl, LowBits, Mask, NetworkAddress, Octet, Join;
    SameNetworkIff(x, y, p);
    LowBitsNest(Htonl(x), 32 - p, 8);
    LowBitsNest(Htonl(y), 32 - p, 8);
    HighOctets(x);
    HighOctets(y);
    OctetsOfJoin(Octet(x, 0), Octet(x, 1), Octet(x, 2), 0);
    OctetsOfJoin(Octet(y, 0), Octet(y, 1), Octet(y, 2), 0);
  }

  lemma LowBitsNest(x: nat, h: nat, k: nat)
    requires h <= k
    ensures x - LowBits(x, k) == (x - LowBits(x, h)) - LowBits(x - LowBits(x, h), k)
    decreases h
  {
    hide LowBits;
    if h == 0 {
      NoLowBits(x);
    } else {
      var half := x / 2;
      LowBitsNest(half, h - 1, k - 1);
      LowBitsStep(x, h);
      LowBitsStep(x, k);
      var y := half - LowBits(half, h - 1);
      LowBitsOfEven(y, k);
      assert x - LowBits(x, h) == 2 * y;
    }
  }

  lemma LowBitsOfEven(y: nat, k: nat)
    requires k > 0
    ensures LowBits(2 * y, k) == 2 * LowBits(y, k - 1)
  {
    assert 2 * y / 2 == y;
  }

  lemma {:induction false} HighOctets(x: u32)
    ensures Htonl(x) - LowBits(Htonl(x), 8) == Join(Octet(x, 0), Octet(x, 1), Octet(x, 2), 0)
  {
    hide Octet, LowBits;
    Pow2Values();
    LowBitsIsMod(Htonl(x), 8);
  }

  /** An address that lies in a range of its subnet, but not by the comparison the server makes. */
  predicate OrdersDisagree(ip: u32, beginIp: u32, endIp: u32, p: nat)
    requires p <= 32
  {
    && NetworkAddress(beginIp, Mask(p)) == NetworkAddress(endIp, Mask(p)) == NetworkAddress(ip, Mask(p))
    && HostInRange(ip, beginIp, endIp) && !IpInRange(ip, beginIp, endIp, Mask(p))
  }

  /**
   Below /24 the two orders disagree on some address of some range of every such subnet size:
   0.0.0.2 to 0.0.1.1 holds 0.0.1.0 in host order, but 2 > 1 in the first octet compared.
   */
  lemma RangeOrdersDisagree(p: nat)
    requires 1 <= p < 24
    ensures exists ip: u32, beginIp: u32, endIp: u32 :: OrdersDisagree(ip, beginIp, endIp, p)
  {
    var b, e, i := Join(2, 0, 0, 0), Join(1, 1, 0, 0), Join(0, 1, 0, 0);
    HtonlOfJoin(2, 0, 0, 0);
    HtonlOfJoin(1, 1, 0, 0);
    HtonlOfJoin(0, 1, 0, 0);
    assert b == 0x200_0000 && e == 0x101_0000 && i == 0x1_0000;
    assert Htonl(b) == 2 && Htonl(e) == 257 && Htonl(i) == 256;
    SmallNetsDisagree(i, b, e, p);
  }

  lemma SmallNetsDisagree(ip: u32, beginIp: u32, endIp: u32, p: nat)
    requires p < 24 && Htonl(beginIp) <= Htonl(ip) <= Htonl(endIp) < 512 && beginIp > ip
    ensures OrdersDisagree(ip, beginIp, endIp, p)
  {
    hide Htonl, NetPart, NetworkAddress, Mask;
    ZeroNet(beginIp, p);
    ZeroNet(endIp, p);
    ZeroNet(ip, p);
    SameNetworkIff(beginIp, endIp, p);
    SameNetworkIff(beginIp, ip, p);
  }

  lemma ZeroNet(x: u32, p: nat)
    requires p < 24 && Htonl(x) < 512
    ensures NetPart(x, p) == 0
  {
    Pow2Values();
    assert Pow2(9) == 512;
    Pow2Monotone(9, 32 - p);
    LowBitsIsMod(Htonl(x), 32 - p);
    DivModUnique(Htonl(x), Pow2(32 - p), 0, Htonl(x));
  }
}
