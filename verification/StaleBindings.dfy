/**
 Runs of a server with one address to give: a binding outlives the RELEASE of its client, is
 offered again when the address is another client's by then, and lets the first client end the
 other's live lease.
 */
module StaleBindings {
  import opened Wrappers
  import opened Words
  import opened AddressUtils
  import opened AddressPool
  import opened ServerHandlers
  import opened LeaseOwnership

  const EMPTY := Pool(map[], map[], 0)

  /** A pool on a subnet /1 to /30 whose range is one host. */
  predicate OneAddress(cfg: Config, p: nat) {
    && 1 <= p <= 30 && cfg.netmask == Mask(p) && cfg.netmask != 0
    && cfg.begin == cfg.end && cfg.begin != 0 && IsHost(cfg.begin, p)
  }

  function LeaseTimeOf(cfg: Config): u64 {
    if cfg.leaseTime == 0 then DHCP_LEASE_TIME else cfg.leaseTime
  }

  /** A clock that shows one time throughout a message. */
  ghost predicate Shows(clk: Clock, t: u64) {
    forall k: nat :: clk(k) == t
  }

  function Says(kind: Kind, chaddr: Chaddr): Message {
    Message(kind, chaddr, 0, None, None)
  }

  function Sent(kind: Kind, chaddr: Chaddr, t: u64): Input {
    Input(Says(kind, chaddr), _ => t)
  }

  /** The binding, and the lease, of a client that discovered the address at a time. */
  function BoundAt(cfg: Config, chaddr: Chaddr, t: u64): Binding {
    NewBinding(chaddr, t, t).(leaseTime := LeaseTimeOf(cfg), ip := cfg.begin)
  }

  lemma OnlyAddressGiven(cfg: Config, s: Pool, chaddr: Chaddr, clk: Clock, t: u64, p: nat)
    requires OneAddress(cfg, p) && Shows(clk, t) && !IsEmptyHWAddr(chaddr) && !IsReserved(s, chaddr)
    requires s.leases == map[] && (s.distribution == 0 || s.distribution == cfg.begin)
    ensures AddressDistribute(cfg, s, chaddr, clk) ==
            (Pool(s.bindings, map[cfg.begin := DistributedLease(cfg, chaddr, cfg.begin, t)], cfg.begin), cfg.begin)
  {
    hide MacAddrHash, IsReserved, IsEmptyHWAddr, Mask, HostTotal, AddressDistribute, IsHost, NetworkAddress,
      NextIpAddress, Walk;
    assert InRange(cfg, cfg.begin);
    DistributeSoundComplete(cfg, s, chaddr, clk, p);
    var r := AddressDistribute(cfg, s, chaddr, clk).1;
    assert Free(cfg, s, chaddr, cfg.begin, clk(0));
    assert r == cfg.begin;
  }

  /** A client without binding that finds no lease in the tables is offered the address and leases it. */
  lemma NewClientGetsIt(cfg: Config, s: Pool, chaddr: Chaddr, clk: Clock, t: u64, p: nat)
    requires OneAddress(cfg, p) && Shows(clk, t) && !IsEmptyHWAddr(chaddr)
    requires MacAddrHash(chaddr) !in s.bindings && s.leases == map[]
    requires s.distribution == 0 || s.distribution == cfg.begin
    ensures var b := BoundAt(cfg, chaddr, t);
            Step(cfg, s, Says(Discover, chaddr), clk) ==
            (Pool(s.bindings[MacAddrHash(chaddr) := b], map[cfg.begin := b], cfg.begin), Offer(cfg.begin))
  {
    var key := MacAddrHash(chaddr);
    hide MacAddrHash, IsEmptyHWAddr, AddressDistribute, OneAddress;
    assert cfg.begin != 0 by { BeginNonzero(cfg, p); }
    var b1 := NewBinding(chaddr, t, t).(leaseTime := LeaseTimeOf(cfg));
    var s0 := s.(bindings := s.bindings[key := b1]);
    OnlyAddressGiven(cfg, s0, chaddr, Later(clk, 2), t, p);
    assert GetBinding(cfg, s, chaddr, clk) ==
           Pool(s.bindings[key := BoundAt(cfg, chaddr, t)],
                map[cfg.begin := DistributedLease(cfg, chaddr, cfg.begin, t)], cfg.begin);
    assert Mac(DistributedLease(cfg, chaddr, cfg.begin, t).chaddr) == Mac(chaddr);
    assert DeleteMacInLease(GetBinding(cfg, s, chaddr, clk), Mac(chaddr)).leases == map[];
    hide GetBinding, Mac;
  }

  lemma BeginNonzero(cfg: Config, p: nat)
    requires OneAddress(cfg, p)
    ensures cfg.begin != 0
  {
  }

  /** A RELEASE drops the lease of the binding's address, whoever holds it, and keeps the binding. */
  lemma ReleaseDropsLease(cfg: Config, s: Pool, chaddr: Chaddr, clk: Clock, lease: Binding)
    requires MacAddrHash(chaddr) in s.bindings && !IsEmptyHWAddr(chaddr) && !IsEmptyHWAddr(lease.chaddr)
    requires var b := s.bindings[MacAddrHash(chaddr)];
             b.mode == BIND_MODE_DYNAMIC && b.ip != 0 && b.ip == lease.ip && s.leases == map[b.ip := lease]
    ensures var b := s.bindings[MacAddrHash(chaddr)];
            Step(cfg, s, Says(Release, chaddr), clk) ==
            (Pool(s.bindings[MacAddrHash(chaddr) := b.(status := BIND_RELEASED)], map[], s.distribution), NoReply)
  {
    hide MacAddrHash, IsEmptyHWAddr;
  }

  lemma BoundIsLive(cfg: Config, chaddr: Chaddr, t: u64)
    requires t + LeaseTimeOf(cfg) < U64_SIZE
    ensures !ExpiredAt(BoundAt(cfg, chaddr, t), t)
  {
  }

  /** Two clients that share neither a MAC nor a key. */
  predicate Apart(a: Chaddr, b: Chaddr) {
    Mac(a) != Mac(b) && MacAddrHash(a) != MacAddrHash(b)
  }

  /** A discovers and releases, then B discovers. */
  function Prelude(a: Chaddr, b: Chaddr, t: u64): seq<Input> {
    [Sent(Discover, a, t), Sent(Release, a, t), Sent(Discover, b, t)]
  }

  /** The tables after the prelude: A's binding is left, and its address is leased to B. */
  function AfterPrelude(cfg: Config, a: Chaddr, b: Chaddr, t: u64): Pool {
    var x, y := BoundAt(cfg, a, t).(status := BIND_RELEASED), BoundAt(cfg, b, t);
    Pool(map[MacAddrHash(a) := x, MacAddrHash(b) := y], map[cfg.begin := y], cfg.begin)
  }

  /** The tables that a run ends with. */
  function Ends(cfg: Config, s: Pool, run: seq<Input>): Pool {
    Tables(cfg, s, run)[|run|]
  }

  lemma EndsSnoc(cfg: Config, s: Pool, run: seq<Input>, i: Input)
    ensures Ends(cfg, s, run + [i]) == Step(cfg, Ends(cfg, s, run), i.message, i.clk).0
    decreases |run|
  {
    hide Step;
    if run == [] {
      assert run + [i] == [i] && [i][1..] == [];
    } else {
      assert (run + [i])[1..] == run[1..] + [i];
      EndsSnoc(cfg, Step(cfg, s, run[0].message, run[0].clk).0, run[1..], i);
    }
  }

  lemma EndsEmpty(cfg: Config, s: Pool)
    ensures Ends(cfg, s, []) == s
  {
  }

  lemma PreludeReaches(cfg: Config, a: Chaddr, b: Chaddr, t: u64, p: nat)
    requires OneAddress(cfg, p) && Apart(a, b) && !IsEmptyHWAddr(a) && !IsEmptyHWAddr(b)
    ensures Ends(cfg, EMPTY, Prelude(a, b, t)) == AfterPrelude(cfg, a, b, t)
  {
    hide Step, MacAddrHash, IsEmptyHWAddr, OneAddress, Mac, Ends;
    BeginNonzero(cfg, p);
    var i0, i1, i2 := Sent(Discover, a, t), Sent(Release, a, t), Sent(Discover, b, t);
    EndsEmpty(cfg, EMPTY);
    NewClientGetsIt(cfg, EMPTY, a, i0.clk, t, p);
    EndsSnoc(cfg, EMPTY, [], i0);
    ReleaseDropsLease(cfg, Ends(cfg, EMPTY, [] + [i0]), a, i1.clk, BoundAt(cfg, a, t));
    EndsSnoc(cfg, EMPTY, [] + [i0], i1);
    NewClientGetsIt(cfg, Ends(cfg, EMPTY, [] + [i0] + [i1]), b, i2.clk, t, p);
    EndsSnoc(cfg, EMPTY, [] + [i0] + [i1], i2);
    assert [] + [i0] + [i1] + [i2] == Prelude(a, b, t);
  }

  /**
   The next DISCOVER of A is answered with that address, and B's lease, live at that time, stays as
   it is.
   */
  lemma StaleBindingIsOffered(cfg: Config, a: Chaddr, b: Chaddr, t: u64, p: nat)
    requires OneAddress(cfg, p) && Apart(a, b) && !IsEmptyHWAddr(a) && !IsEmptyHWAddr(b)
    requires t + LeaseTimeOf(cfg) < U64_SIZE
    ensures var s := Ends(cfg, EMPTY, Prelude(a, b, t));
            var (s', reply) := Step(cfg, s, Says(Discover, a), Sent(Discover, a, t).clk);
            && reply == Offer(cfg.begin)
            && cfg.begin in s.leases && cfg.begin in s'.leases && s'.leases[cfg.begin] == s.leases[cfg.begin]
            && Mac(s.leases[cfg.begin].chaddr) == Mac(b) && !ExpiredAt(s.leases[cfg.begin], t)
  {
    PreludeReaches(cfg, a, b, t, p);
    BeginNonzero(cfg, p);
    BoundIsLive(cfg, b, t);
    hide MacAddrHash, IsEmptyHWAddr, OneAddress, Mac, Ends;
  }

  function AfterRelease(cfg: Config, a: Chaddr, b: Chaddr, t: u64): Pool {
    AfterPrelude(cfg, a, b, t).(leases := map[])
  }

  lemma ReleaseReaches(cfg: Config, a: Chaddr, b: Chaddr, t: u64, p: nat)
    requires OneAddress(cfg, p) && Apart(a, b) && !IsEmptyHWAddr(a) && !IsEmptyHWAddr(b)
    ensures Ends(cfg, EMPTY, Prelude(a, b, t) + [Sent(Release, a, t)]) == AfterRelease(cfg, a, b, t)
  {
    PreludeReaches(cfg, a, b, t, p);
    BeginNonzero(cfg, p);
    hide Step, MacAddrHash, IsEmptyHWAddr, OneAddress, Mac, Ends, Prelude;
    var i := Sent(Release, a, t);
    var s := AfterPrelude(cfg, a, b, t);
    ReleaseDropsLease(cfg, s, a, i.clk, BoundAt(cfg, b, t));
    EndsSnoc(cfg, EMPTY, Prelude(a, b, t), i);
    var x := BoundAt(cfg, a, t).(status := BIND_RELEASED);
    assert s.bindings[MacAddrHash(a) := x] == s.bindings;
  }

  lemma ThirdClientGetsIt(cfg: Config, a: Chaddr, b: Chaddr, c: Chaddr, t: u64, p: nat)
    requires OneAddress(cfg, p) && Apart(a, b) && Apart(a, c) && Apart(b, c)
    requires !IsEmptyHWAddr(a) && !IsEmptyHWAddr(b) && !IsEmptyHWAddr(c)
    ensures Ends(cfg, EMPTY, Prelude(a, b, t) + [Sent(Release, a, t)] + [Sent(Discover, c, t)]).leases ==
            map[cfg.begin := BoundAt(cfg, c, t)]
  {
    ReleaseReaches(cfg, a, b, t, p);
    hide Step, MacAddrHash, IsEmptyHWAddr, OneAddress, Mac, Ends, Prelude, BoundAt;
    var s, i := AfterRelease(cfg, a, b, t), Sent(Discover, c, t);
    assert s.leases == map[] && s.distribution == cfg.begin && MacAddrHash(c) !in s.bindings;
    assert Shows(i.clk, t) && i.message == Says(Discover, c);
    hide AfterRelease, Shows, Sent, Apart;
    NewClientGetsIt(cfg, s, c, i.clk, t, p);
    EndsSnoc(cfg, EMPTY, Prelude(a, b, t) + [Sent(Release, a, t)], i);
  }

  /**
   And a RELEASE of A ends B's live lease, so that at one time the address goes from B to C, who
   discovers next.
   */
  lemma LiveLeaseHandedOver(cfg: Config, a: Chaddr, b: Chaddr, c: Chaddr, t: u64, p: nat)
    requires OneAddress(cfg, p) && Apart(a, b) && Apart(a, c) && Apart(b, c)
    requires !IsEmptyHWAddr(a) && !IsEmptyHWAddr(b) && !IsEmptyHWAddr(c)
    requires t + LeaseTimeOf(cfg) < U64_SIZE
    ensures var run := Prelude(a, b, t);
            var s := Ends(cfg, EMPTY, run);
            var released := Ends(cfg, EMPTY, run + [Sent(Release, a, t)]);
            var s' := Ends(cfg, EMPTY, run + [Sent(Release, a, t)] + [Sent(Discover, c, t)]);
            && cfg.begin in s.leases && Mac(s.leases[cfg.begin].chaddr) == Mac(b)
            && !ExpiredAt(s.leases[cfg.begin], t)
            && released.leases == map[]
            && cfg.begin in s'.leases && Mac(s'.leases[cfg.begin].chaddr) == Mac(c)
  {
    hide Step, MacAddrHash, IsEmptyHWAddr, OneAddress, Mac, Ends, Prelude, Sent, ExpiredAt;
    PreludeReaches(cfg, a, b, t, p);
    ReleaseReaches(cfg, a, b, t, p);
    ThirdClientGetsIt(cfg, a, b, c, t, p);
    BoundIsLive(cfg, b, t);
  }

  // ----- Three clients and a pool -----

  /** A hardware address that ends in the given octet. */
  function Client(last: u8): Chaddr {
    [2, 0, 0, 0, 0, last] + PADDING
  }

  lemma MacOfClient(last: u8)
    ensures Mac(Client(last)) == [2, 0, 0, 0, 0, last] && !IsEmptyHWAddr(Client(last))
  {
    assert [2, 0, 0, 0, 0, last][0] == 2;
  }

  lemma ClientsApart(x: u8, y: u8)
    requires (x as bv64) & 31 != (y as bv64) & 31
    ensures Apart(Client(x), Client(y)) && !IsEmptyHWAddr(Client(x))
  {
    var prefix: seq<u8> := [2, 0, 0, 0, 0];
    KeysDiffer(prefix, x, y, PADDING);
    DifferentNumbers(HashOctets(prefix + [x] + PADDING), HashOctets(prefix + [y] + PADDING));
    MacOfClient(x);
    MacOfClient(y);
    assert prefix + [x] == [2, 0, 0, 0, 0, x] && prefix + [y] == [2, 0, 0, 0, 0, y];
    hide HashOctets, Mac, IsEmptyHWAddr, PADDING;
    assert [2, 0, 0, 0, 0, x][5] == x && [2, 0, 0, 0, 0, y][5] == y;
  }

  /** 192.168.1.5 on a subnet /24. */
  const POOL := Config(0x00FF_FFFF, 0x0501_A8C0, 0x0501_A8C0, 0x0101_A8C0, 0x0101_A8C0, 0)

  lemma PoolHasOneAddress()
    ensures OneAddress(POOL, 24)
  {
    HtonlOfJoin(255, 255, 255, 0);
    HtonlOfJoin(5, 1, 168, 192);
    assert Join(255, 255, 255, 0) == 0xFFFF_FF00 && Join(0, 255, 255, 255) == 0x00FF_FFFF;
    assert Join(5, 1, 168, 192) == 0x0501_A8C0 && Join(192, 168, 1, 5) == 0xC0A8_0105;
    Pow2Values();
    LowBitsIsMod(0xC0A8_0105, 8);
    hide Htonl, LowBits, Pow2;
    assert Pow2(8) == 256;
    assert POOL.netmask == Mask(24);
    assert HostPart(POOL.begin, 24) == 5;
  }

  /** The five messages, sent by three real clients to a real pool: a live lease changes hands. */
  lemma LiveLeaseIsHandedOver()
    ensures var run := Prelude(Client(1), Client(2), 0);
            var s := Ends(POOL, EMPTY, run);
            var s' := Ends(POOL, EMPTY, run + [Sent(Release, Client(1), 0)] + [Sent(Discover, Client(3), 0)]);
            && POOL.begin in s.leases && Mac(s.leases[POOL.begin].chaddr) == Mac(Client(2))
            && !ExpiredAt(s.leases[POOL.begin], 0)
            && POOL.begin in s'.leases && Mac(s'.leases[POOL.begin].chaddr) == Mac(Client(3))
  {
    hide OneAddress, Apart, IsEmptyHWAddr, Ends, Prelude, Client, Mac, ExpiredAt, Sent;
    PoolHasOneAddress();
    DifferentOctets();
    ClientsApart(1, 2);
    ClientsApart(1, 3);
    ClientsApart(2, 3);
    ClientsApart(3, 1);
    assert 0 + LeaseTimeOf(POOL) < U64_SIZE;
    LiveLeaseHandedOver(POOL, Client(1), Client(2), Client(3), 0, 24);
  }

  lemma DifferentOctets()
    ensures (1 as bv64) & 31 != (2 as bv64) & 31 && (1 as bv64) & 31 != (3 as bv64) & 31
    ensures (2 as bv64) & 31 != (3 as bv64) & 31
  {
  }
}
