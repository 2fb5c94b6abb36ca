/**
 The server's two tables, bindings by MAC hash and leases by address, and the operations
 on them: expiry, availability, sequential distribution and removal by MAC.
 A clock is a parameter: `clk(k)` is the k-th reading taken during an operation.
 */
module AddressPool {
  import opened Words
  import opened AddressUtils

  const U64_SIZE: int := 0x1_0000_0000_0000_0000
  const DHCP_LEASE_TIME: u64 := 21600

  type u64 = x: int | 0 <= x < 0x1_0000_0000_0000_0000

  function Add64(x: u64, y: u64): u64 {
    (x + y) % U64_SIZE
  }

  type Clock = nat -> u64

  /** The readings from the n-th on. */
  function Later(clk: Clock, n: nat): Clock {
    (k: nat) => clk(k + n)
  }

  /** A hardware address field: sixteen octets, of which the first six are the MAC. */
  type Chaddr = c: seq<u8> | |c| == 16 witness [0, 0, 0, 0, 0, 0, 0, 0, 0, 0, 0, 0, 0, 0, 0, 0]

  const PADDING: seq<u8> := [0, 0, 0, 0, 0, 0, 0, 0, 0, 0]

  function Mac(c: Chaddr): seq<u8> {
    c[..6]
  }

  predicate IsEmptyHWAddr(c: Chaddr) {
    Mac(c) == [0, 0, 0, 0, 0, 0]
  }

  function HashOctets(c: seq<u8>): bv64 {
    if |c| == 0 then 5381
    else
      HashStep(HashOctets(c[..|c| - 1]), c[|c| - 1])
  }

  function HashStep(h: bv64, b: u8): bv64 {
    ((h << 5) + h) ^ (b as bv64)
  }

  function ToKey(h: bv64): u64 {
    h as int
  }

  /** Key of the binding table, taken over all sixteen octets. */
  function MacAddrHash(c: Chaddr): u64 {
    ToKey(HashOctets(c))
  }

  const BIND_NONE := 0
  const BIND_PENDING := 1
  const BIND_ASSOCIATED := 2
  const BIND_EXPIRED := 3
  const BIND_RELEASED := 4

  const BIND_MODE_STATIC := 0
  const BIND_MODE_DYNAMIC := 1
  const BIND_MODE_RESERVED := 2

  datatype Binding = Binding(
    ip: u32, chaddr: Chaddr, bindingTime: u64, pendingTime: u64, expireIn: u64,
    leaseTime: u64, pendingInterval: u64, status: int, mode: int)

  datatype Config = Config(netmask: u32, begin: u32, end: u32, serverId: u32, gateway: u32, leaseTime: u32)

  datatype Pool = Pool(bindings: map<u64, Binding>, leases: map<u32, Binding>, distribution: u32)

  // ----- Expiry -----

  function ExpiryOf(b: Binding): u64 {
    var leaseTime := if b.leaseTime == 0 then DHCP_LEASE_TIME else b.leaseTime;
    if b.status == BIND_PENDING then Add64(b.pendingTime, leaseTime)
    else if b.status == BIND_ASSOCIATED then Add64(b.bindingTime, leaseTime)
    else b.expireIn
  }

  /** The verdict of `IsExpire` on a record at a reading of the clock. */
  predicate ExpiredAt(b: Binding, now: u64) {
    now > ExpiryOf(b)
  }

  /** The record `IsExpire` leaves behind. */
  function AfterIsExpire(b: Binding, now: u64): Binding {
    if ExpiredAt(b, now) then b.(status := BIND_EXPIRED) else b
  }

  // ----- Table operations -----

  function NewBinding(chaddr: Chaddr, tBind: u64, tPend: u64): Binding {
    Binding(0, chaddr, tBind, tPend, Add64(tBind, DHCP_LEASE_TIME), DHCP_LEASE_TIME, 0,
            BIND_PENDING, BIND_MODE_DYNAMIC)
  }

  predicate IsReserved(s: Pool, chaddr: Chaddr) {
    MacAddrHash(chaddr) in s.bindings && s.bindings[MacAddrHash(chaddr)].mode == BIND_MODE_RESERVED
  }

  function RemoveBinding(s: Pool, chaddr: Chaddr): Pool {
    s.(bindings := s.bindings - {MacAddrHash(chaddr)})
  }

  predicate HasLease(s: Pool, ip: u32) {
    ip != 0 && ip in s.leases
  }

  /** Adding or replacing the lease of a record; records without address or MAC are refused. */
  function AddLease(s: Pool, b: Binding): Pool {
    if b.ip == 0 || IsEmptyHWAddr(b.chaddr) then s else s.(leases := s.leases[b.ip := b])
  }

  function RemoveLease(s: Pool, b: Binding): Pool {
    if b.ip == 0 || IsEmptyHWAddr(b.chaddr) then s else s.(leases := s.leases - {b.ip})
  }

  function DeleteMacInLease(s: Pool, mac: seq<u8>): Pool {
    s.(leases := map ip | ip in s.leases && Mac(s.leases[ip].chaddr) != mac :: s.leases[ip])
  }

  // ----- Distribution -----

  predicate SameMac(b: Binding, chaddr: Chaddr) {
    Mac(b.chaddr) == Mac(chaddr)
  }

  /** May `ip` be given to this client when its lease, if any, is looked at at `now`? */
  predicate Free(cfg: Config, s: Pool, chaddr: Chaddr, ip: u32, now: u64) {
    HasLease(s, ip) ==>
      var lease := s.leases[ip];
      && ip != cfg.serverId && ip != cfg.gateway
      && (SameMac(lease, chaddr) ||
          (lease.mode != BIND_MODE_STATIC && lease.mode != BIND_MODE_RESERVED && ExpiredAt(lease, now)))
  }

  /** The lease of another client whose time ran out, taken over by this one. */
  function Evict(s: Pool, chaddr: Chaddr, ip: u32, now: u64): Pool
    requires ip in s.leases
  {
    var lease := s.leases[ip];
    var taken := lease.(status := BIND_EXPIRED, pendingTime := now, bindingTime := now,
                        chaddr := Mac(chaddr) + lease.chaddr[6..]);
    RemoveBinding(s, lease.chaddr).(leases := s.leases[ip := taken])
  }

  function Touch(s: Pool, ip: u32, now: u64): Pool
    requires ip in s.leases
  {
    s.(leases := s.leases[ip := s.leases[ip].(pendingTime := now, bindingTime := now)])
  }

  function CheckIpAvailability(cfg: Config, s: Pool, chaddr: Chaddr, ip: u32, clk: Clock): (Pool, bool) {
    if IsReserved(s, chaddr) || !Free(cfg, s, chaddr, ip, clk(0)) then (s, false)
    else if !HasLease(s, ip) then (s, true)
    else if SameMac(s.leases[ip], chaddr) then (Touch(s, ip, clk(1)), true)
    else (Evict(s, chaddr, ip, clk(1)), true)
  }

  /** The lease written when an address is given out: status BIND_NONE, never dated. */
  function DistributedLease(cfg: Config, chaddr: Chaddr, ip: u32, now: u64): Binding {
    Binding(ip, Mac(chaddr) + PADDING, now, now, 0, cfg.leaseTime, 0, BIND_NONE, BIND_PENDING)
  }

  predicate InRange(cfg: Config, ip: u32) {
    IpInRange(ip, cfg.begin, cfg.end, cfg.netmask)
  }

  /** The scan from `ip` with `left` steps to go: the tables after it and the address found, or 0. */
  function Scan(cfg: Config, s: Pool, chaddr: Chaddr, ip: u32, left: nat, clk: Clock): (r: (Pool, u32))
    decreases left
  {
    if left == 0 then (s, 0)
    else
      var next := NextIpAddress(ip, cfg.netmask, 0);
      var (s1, ok) := CheckIpAvailability(cfg, s, chaddr, next, clk);
      if ok && InRange(cfg, next) then (AddLease(s1, DistributedLease(cfg, chaddr, next, clk(2))), next)
      else Scan(cfg, s1, chaddr, next, left - 1, Later(clk, 3))
  }

  predicate CanDistribute(cfg: Config, chaddr: Chaddr) {
    cfg.begin != 0 && cfg.end != 0 && cfg.netmask != 0 && !IsEmptyHWAddr(chaddr)
  }

  function ScanStart(cfg: Config, s: Pool): u32 {
    if s.distribution < cfg.begin then cfg.begin else s.distribution
  }

  function AddressDistribute(cfg: Config, s: Pool, chaddr: Chaddr, clk: Clock): (Pool, u32) {
    if !CanDistribute(cfg, chaddr) then (s, 0)
    else
      var s0 := if s.distribution == 0 then s.(distribution := cfg.begin) else s;
      var (s1, ip) := Scan(cfg, s0, chaddr, ScanStart(cfg, s0), HostTotal(cfg.netmask), clk);
      (if ip == 0 then s1 else s1.(distribution := ip), ip)
  }

  // ----- What a scan may do to the tables, whatever they hold -----

  /** The record had run out at one of the first `taken` readings, those the operation takes. */
  predicate ExpiredDuring(b: Binding, clk: Clock, taken: nat) {
    exists k: nat | k < taken :: ExpiredAt(b, clk(k))
  }

  /** Every lease is as it was, or is now this client's after it was its own or had expired. */
  predicate OnlyExpiredTaken(before: map<u32, Binding>, after: map<u32, Binding>, chaddr: Chaddr,
                             clk: Clock, taken: nat)
  {
    forall ip <- before ::
      && ip in after
      && (|| after[ip] == before[ip]
          || (SameMac(after[ip], chaddr) && (SameMac(before[ip], chaddr) || ExpiredDuring(before[ip], clk, taken))))
  }

  lemma ExpiredLater(b: Binding, clk: Clock, n: nat, taken: nat)
    requires ExpiredDuring(b, Later(clk, n), taken)
    ensures ExpiredDuring(b, clk, n + taken)
  {
    var k: nat :| k < taken && ExpiredAt(b, Later(clk, n)(k));
    assert ExpiredAt(b, clk(k + n));
  }

  /** A scan of `left` steps takes three readings a step. */
  lemma {:induction false} ScanTakesOnlyExpired(
    cfg: Config, s: Pool, chaddr: Chaddr, ip: u32, left: nat, clk: Clock)
    ensures OnlyExpiredTaken(s.leases, Scan(cfg, s, chaddr, ip, left, clk).0.leases, chaddr, clk, 3 * left)
    decreases left
  {
    hide NextIpAddress, IpInRange, MacAddrHash;
    if left > 0 {
      var next := NextIpAddress(ip, cfg.netmask, 0);
      var (s1, ok) := CheckIpAvailability(cfg, s, chaddr, next, clk);
      OneStepTakesOnlyExpired(cfg, s, chaddr, next, clk, 3 * left);
      if ok && InRange(cfg, next) {
      } else {
        ScanTakesOnlyExpired(cfg, s1, chaddr, next, left - 1, Later(clk, 3));
        forall x | x in s1.leases && ExpiredDuring(s1.leases[x], Later(clk, 3), 3 * (left - 1))
          ensures ExpiredDuring(s1.leases[x], clk, 3 * left)
        {
          ExpiredLater(s1.leases[x], clk, 3, 3 * (left - 1));
        }
      }
    }
  }

  lemma OneStepTakesOnlyExpired(
    cfg: Config, s: Pool, chaddr: Chaddr, ip: u32, clk: Clock, taken: nat)
    requires taken > 0
    ensures OnlyExpiredTaken(s.leases, CheckIpAvailability(cfg, s, chaddr, ip, clk).0.leases, chaddr, clk, taken)
  {
    hide MacAddrHash, ExpiryOf;
    if HasLease(s, ip) && ExpiredAt(s.leases[ip], clk(0)) {
      assert ExpiredDuring(s.leases[ip], clk, taken);
    }
  }

  // ----- Soundness and completeness of the scan -----

  predicate LeasesInRange(cfg: Config, s: Pool) {
    forall ip <- s.leases :: InRange(cfg, ip)
  }

  /** Giving `ip` out: its lease is this client's, and an evicted owner loses its binding. */
  function Give(cfg: Config, s: Pool, chaddr: Chaddr, ip: u32, now: u64): Pool {
    var bindings := if HasLease(s, ip) && !SameMac(s.leases[ip], chaddr)
                    then s.bindings - {MacAddrHash(s.leases[ip].chaddr)} else s.bindings;
    Pool(bindings, s.leases[ip := DistributedLease(cfg, chaddr, ip, now)], s.distribution)
  }

  predicate Suits(cfg: Config, s: Pool, chaddr: Chaddr, ip: u32, now: u64) {
    InRange(cfg, ip) && Free(cfg, s, chaddr, ip, now)
  }

  /** The walk from `ip` meets its first suitable address at step `k`. */
  ghost predicate FirstSuitable(cfg: Config, s: Pool, chaddr: Chaddr, ip: u32, clk: Clock, k: nat) {
    && 1 <= k
    && Suits(cfg, s, chaddr, Walk(ip, cfg.netmask, k), clk(3 * (k - 1)))
    && NoneSuitable(cfg, s, chaddr, ip, clk, k - 1)
  }

  ghost predicate NoneSuitable(cfg: Config, s: Pool, chaddr: Chaddr, ip: u32, clk: Clock, upTo: nat) {
    forall k: nat :: 1 <= k <= upTo ==> !Suits(cfg, s, chaddr, Walk(ip, cfg.netmask, k), clk(3 * (k - 1)))
  }

  /** Looking one step ahead: the walk from the successor is the walk itself, one step on. */
  lemma {:induction false} ShiftWalk(cfg: Config, s: Pool, chaddr: Chaddr, ip: u32, clk: Clock, k: nat)
    requires !Suits(cfg, s, chaddr, NextIpAddress(ip, cfg.netmask, 0), clk(0))
    ensures var next, clk' := NextIpAddress(ip, cfg.netmask, 0), Later(clk, 3);
            && (NoneSuitable(cfg, s, chaddr, next, clk', k) ==> NoneSuitable(cfg, s, chaddr, ip, clk, k + 1))
            && (FirstSuitable(cfg, s, chaddr, next, clk', k) ==>
                  FirstSuitable(cfg, s, chaddr, ip, clk, k + 1)
                  && Walk(next, cfg.netmask, k) == Walk(ip, cfg.netmask, k + 1))
  {
    hide NextIpAddress, IpInRange, Free;
    var next, clk' := NextIpAddress(ip, cfg.netmask, 0), Later(clk, 3);
    assert Walk(ip, cfg.netmask, 0) == ip && Walk(ip, cfg.netmask, 1) == next;
    forall j: nat | 1 <= j
      ensures Walk(next, cfg.netmask, j) == Walk(ip, cfg.netmask, j + 1) && clk'(3 * (j - 1)) == clk(3 * j)
    {
      WalkSplit(ip, cfg.netmask, 1, j);
    }
    forall n: nat | NoneSuitable(cfg, s, chaddr, next, clk', n)
      ensures NoneSuitable(cfg, s, chaddr, ip, clk, n + 1)
    {
      forall j: nat | 1 <= j <= n + 1
        ensures !Suits(cfg, s, chaddr, Walk(ip, cfg.netmask, j), clk(3 * (j - 1)))
      {
        if j > 1 {
          assert Walk(next, cfg.netmask, j - 1) == Walk(ip, cfg.netmask, j);
        }
      }
    }
  }

  /**
   While every lease lies in the range, a scan changes nothing until it meets an address that
   suits, and it stops at the first one: it gives out exactly that address.
   */
  lemma {:induction false} ScanFindsFirst(cfg: Config, s: Pool, chaddr: Chaddr, ip: u32, left: nat, clk: Clock)
    requires CanDistribute(cfg, chaddr) && !IsReserved(s, chaddr) && LeasesInRange(cfg, s)
    ensures var (s', r) := Scan(cfg, s, chaddr, ip, left, clk);
            if r == 0 then s' == s && NoneSuitable(cfg, s, chaddr, ip, clk, left)
            else exists k: nat | FirstSuitable(cfg, s, chaddr, ip, clk, k) ::
                   k <= left && r == Walk(ip, cfg.netmask, k) && s' == Give(cfg, s, chaddr, r, clk(3 * (k - 1) + 2))
    decreases left
  {
    hide NextIpAddress, IpInRange, MacAddrHash, IsEmptyHWAddr, Free;
    if left > 0 {
      var next := NextIpAddress(ip, cfg.netmask, 0);
      assert Walk(ip, cfg.netmask, 0) == ip && Walk(ip, cfg.netmask, 1) == next;
      if Suits(cfg, s, chaddr, next, clk(0)) {
        ScanGives(cfg, s, chaddr, ip, left, clk);
        assert FirstSuitable(cfg, s, chaddr, ip, clk, 1);
      } else {
        SkipUnsuitable(cfg, s, chaddr, next, clk);
        var clk' := Later(clk, 3);
        ScanFindsFirst(cfg, s, chaddr, next, left - 1, clk');
        var (s', r) := Scan(cfg, s, chaddr, next, left - 1, clk');
        if r == 0 {
          ShiftWalk(cfg, s, chaddr, ip, clk, left - 1);
        } else {
          var k: nat :| FirstSuitable(cfg, s, chaddr, next, clk', k)
            && k <= left - 1 && r == Walk(next, cfg.netmask, k)
            && s' == Give(cfg, s, chaddr, r, clk'(3 * (k - 1) + 2));
          ShiftWalk(cfg, s, chaddr, ip, clk, k);
          assert FirstSuitable(cfg, s, chaddr, ip, clk, k + 1);
          assert clk'(3 * (k - 1) + 2) == clk(3 * ((k + 1) - 1) + 2);
        }
      }
    }
  }

  lemma {:induction false} ScanGives(cfg: Config, s: Pool, chaddr: Chaddr, ip: u32, left: nat, clk: Clock)
    requires left > 0 && CanDistribute(cfg, chaddr) && !IsReserved(s, chaddr)
    requires Suits(cfg, s, chaddr, NextIpAddress(ip, cfg.netmask, 0), clk(0))
    ensures var next := NextIpAddress(ip, cfg.netmask, 0);
            next != 0 && Scan(cfg, s, chaddr, ip, left, clk) == (Give(cfg, s, chaddr, next, clk(2)), next)
  {
    hide NextIpAddress, MacAddrHash, NetworkAddress;
    var next := NextIpAddress(ip, cfg.netmask, 0);
    var (s1, ok) := CheckIpAvailability(cfg, s, chaddr, next, clk);
    var lease := DistributedLease(cfg, chaddr, next, clk(2));
    assert Mac(lease.chaddr) == Mac(chaddr);
    assert s1.leases[next := lease] == s.leases[next := lease];
  }

  lemma SkipUnsuitable(cfg: Config, s: Pool, chaddr: Chaddr, ip: u32, clk: Clock)
    requires !IsReserved(s, chaddr) && LeasesInRange(cfg, s)
    requires !Suits(cfg, s, chaddr, ip, clk(0))
    ensures CheckIpAvailability(cfg, s, chaddr, ip, clk).0 == s
    ensures !(CheckIpAvailability(cfg, s, chaddr, ip, clk).1 && InRange(cfg, ip))
  {
  }

  predicate Nondecreasing(clk: Clock, upTo: nat) {
    forall i, j :: 0 <= i <= j <= upTo ==> clk(i) <= clk(j)
  }

  predicate IsHost(ip: u32, p: nat)
    requires p <= 32
  {
    1 <= HostPart(ip, p) && HostPart(ip, p) + 1 < Pow2(32 - p)
  }

  /** What every pool keeps about the place where the next scan starts. */
  predicate StartInRange(cfg: Config, s: Pool) {
    s.distribution != 0 && s.distribution != cfg.begin ==> InRange(cfg, s.distribution)
  }

  /** What the pool and the message must be for the search to make sense. */
  predicate Searchable(cfg: Config, s: Pool, chaddr: Chaddr, p: nat) {
    && 1 <= p <= 30 && cfg.netmask == Mask(p)
    && CanDistribute(cfg, chaddr) && !IsReserved(s, chaddr)
    && InRange(cfg, cfg.begin) && LeasesInRange(cfg, s) && StartInRange(cfg, s)
  }

  /**
   `AddressDistribute` finds the first suitable address of the walk from its start: it fails if
   none of `HostTotal` steps meets one, and otherwise gives out that address and changes nothing
   else. The readings are those of the steps taken.
   */
  lemma DistributeFindsFirst(cfg: Config, s: Pool, chaddr: Chaddr, clk: Clock)
    requires CanDistribute(cfg, chaddr) && !IsReserved(s, chaddr) && LeasesInRange(cfg, s)
    ensures var (s', r) := AddressDistribute(cfg, s, chaddr, clk);
            var start, total := ScanStart(cfg, s), HostTotal(cfg.netmask);
            && (r == 0 ==> s'.bindings == s.bindings && s'.leases == s.leases
                           && NoneSuitable(cfg, s, chaddr, start, clk, total))
            && (r != 0 ==> exists k: nat | FirstSuitable(cfg, s, chaddr, start, clk, k) ::
                             && k <= total && r == Walk(start, cfg.netmask, k)
                             && s' == Give(cfg, s, chaddr, r, clk(3 * (k - 1) + 2)).(distribution := r))
  {
    hide NextIpAddress, MacAddrHash, NetworkAddress, Free, HostTotal, IsReserved;
    var s0 := if s.distribution == 0 then s.(distribution := cfg.begin) else s;
    var start, total := ScanStart(cfg, s), HostTotal(cfg.netmask);
    assert start == ScanStart(cfg, s0);
    FreeIgnoresStart(cfg, s, s0, chaddr);
    assert IsReserved(s0, chaddr) == IsReserved(s, chaddr) by { SameReserved(s, s0, chaddr); }
    ScanFindsFirst(cfg, s0, chaddr, start, total, clk);
    var r := Scan(cfg, s0, chaddr, start, total, clk).1;
    if r != 0 {
      var k: nat :| FirstSuitable(cfg, s0, chaddr, start, clk, k) && k <= total && r == Walk(start, cfg.netmask, k)
        && Scan(cfg, s0, chaddr, start, total, clk).0 == Give(cfg, s0, chaddr, r, clk(3 * (k - 1) + 2));
      GiveIgnoresStart(cfg, s, s0, chaddr, r, clk(3 * (k - 1) + 2));
      assert FirstSuitable(cfg, s, chaddr, start, clk, k);
    }
  }

  /**
   `AddressDistribute` is sound and complete. On a subnet /1 to /30 it fails only if no host of
   the range was free for this client at the first reading of the clock; otherwise it gives out
   the first host of the walk that was free when the walk came to it, and changes nothing else.
   */
  lemma DistributeSoundComplete(cfg: Config, s: Pool, chaddr: Chaddr, clk: Clock, p: nat)
    requires Searchable(cfg, s, chaddr, p) && Nondecreasing(clk, 3 * HostTotal(cfg.netmask))
    ensures var (s', r) := AddressDistribute(cfg, s, chaddr, clk);
            var start, total := ScanStart(cfg, s), HostTotal(cfg.netmask);
            && (r == 0 ==>
                  && s'.bindings == s.bindings && s'.leases == s.leases
                  && forall ip: u32 | IsHost(ip, p) && InRange(cfg, ip) :: !Free(cfg, s, chaddr, ip, clk(0)))
            && (r != 0 ==>
                  && IsHost(r, p) && InRange(cfg, r)
                  && exists k: nat | FirstSuitable(cfg, s, chaddr, start, clk, k) ::
                       && k <= total && r == Walk(start, cfg.netmask, k)
                       && s' == Give(cfg, s, chaddr, r, clk(3 * (k - 1) + 2)).(distribution := r))
  {
    hide NextIpAddress, MacAddrHash, NetworkAddress, Free, HostTotal, Mask, HostPart, NetPart, IsReserved,
      AddressDistribute, NoneSuitable;
    var start, total := ScanStart(cfg, s), HostTotal(cfg.netmask);
    assert InRange(cfg, start);
    DistributeFindsFirst(cfg, s, chaddr, clk);
    var (s', r) := AddressDistribute(cfg, s, chaddr, clk);
    if r == 0 {
      NoneFree(cfg, s, chaddr, clk, p);
    } else {
      var k: nat :| FirstSuitable(cfg, s, chaddr, start, clk, k) && k <= total && r == Walk(start, cfg.netmask, k)
        && s' == Give(cfg, s, chaddr, r, clk(3 * (k - 1) + 2)).(distribution := r);
      WalkPosition(start, p, k);
    }
  }

  /** The walk comes to every host, so when it met none that suits, none was free at its start. */
  lemma NoneFree(cfg: Config, s: Pool, chaddr: Chaddr, clk: Clock, p: nat)
    requires Searchable(cfg, s, chaddr, p) && Nondecreasing(clk, 3 * HostTotal(cfg.netmask))
    requires NoneSuitable(cfg, s, chaddr, ScanStart(cfg, s), clk, HostTotal(cfg.netmask))
    ensures forall ip: u32 | IsHost(ip, p) && InRange(cfg, ip) :: !Free(cfg, s, chaddr, ip, clk(0))
  {
    hide NextIpAddress, MacAddrHash, NetworkAddress, Free, HostTotal, Mask, HostPart, NetPart, IsReserved;
    var start := ScanStart(cfg, s);
    assert InRange(cfg, start);
    forall ip: u32 | IsHost(ip, p) && InRange(cfg, ip)
      ensures !Free(cfg, s, chaddr, ip, clk(0))
    {
      SameNetworkIff(ip, cfg.begin, p);
      SameNetworkIff(start, cfg.begin, p);
      var k := WalkCoversHosts(start, p, ip);
      assert !Suits(cfg, s, chaddr, Walk(start, cfg.netmask, k), clk(3 * (k - 1)));
      FreeLater(cfg, s, chaddr, ip, clk(0), clk(3 * (k - 1)));
    }
  }

  // ----- The server's own addresses -----

  /** The test against the server's address and the gateway guards leased addresses only. */
  lemma OwnAddressFreeIff(cfg: Config, s: Pool, chaddr: Chaddr, ip: u32, now: u64)
    requires ip == cfg.serverId || ip == cfg.gateway
    ensures Free(cfg, s, chaddr, ip, now) <==> !HasLease(s, ip)
  {
  }

  /**
   So a client is given the address of the server, or of the gateway, if and only if that
   address is in the range and not leased, and the walk comes to it before any suitable one.
   */
  lemma OwnAddressGivenIff(cfg: Config, s: Pool, chaddr: Chaddr, clk: Clock, ip: u32)
    requires CanDistribute(cfg, chaddr) && !IsReserved(s, chaddr) && LeasesInRange(cfg, s)
    requires ip != 0 && (ip == cfg.serverId || ip == cfg.gateway)
    ensures AddressDistribute(cfg, s, chaddr, clk).1 == ip <==>
            && InRange(cfg, ip) && !HasLease(s, ip)
            && exists k: nat | 1 <= k <= HostTotal(cfg.netmask) && Walk(ScanStart(cfg, s), cfg.netmask, k) == ip ::
                 NoneSuitable(cfg, s, chaddr, ScanStart(cfg, s), clk, k - 1)
  {
    hide NextIpAddress, MacAddrHash, IpInRange, Free, HostTotal, IsReserved, AddressDistribute, Walk, HasLease;
    var start, total := ScanStart(cfg, s), HostTotal(cfg.netmask);
    DistributeFindsFirst(cfg, s, chaddr, clk);
    var (s', r) := AddressDistribute(cfg, s, chaddr, clk);
    forall now: u64
      ensures Free(cfg, s, chaddr, ip, now) <==> !HasLease(s, ip)
    {
      OwnAddressFreeIff(cfg, s, chaddr, ip, now);
    }
    if InRange(cfg, ip) && !HasLease(s, ip) {
      forall k: nat | 1 <= k <= total && Walk(start, cfg.netmask, k) == ip
                      && NoneSuitable(cfg, s, chaddr, start, clk, k - 1)
        ensures r == ip
      {
        assert Suits(cfg, s, chaddr, Walk(start, cfg.netmask, k), clk(3 * (k - 1)));
      }
    }
  }

  /** A server that sits first in its own range gives its address to its first client. */
  lemma FirstClientGetsServerAddress(cfg: Config, chaddr: Chaddr, clk: Clock)
    requires CanDistribute(cfg, chaddr) && cfg.serverId != 0 && HostTotal(cfg.netmask) > 0
    requires NextIpAddress(cfg.begin, cfg.netmask, 0) == cfg.serverId && InRange(cfg, cfg.serverId)
    ensures AddressDistribute(cfg, Pool(map[], map[], 0), chaddr, clk).1 == cfg.serverId
  {
    hide NextIpAddress, MacAddrHash, IpInRange, Free, HostTotal, AddressDistribute;
    var s := Pool(map[], map[], 0);
    assert Walk(cfg.begin, cfg.netmask, 0) == cfg.begin;
    assert Walk(ScanStart(cfg, s), cfg.netmask, 1) == cfg.serverId;
    assert NoneSuitable(cfg, s, chaddr, ScanStart(cfg, s), clk, 0);
    OwnAddressGivenIff(cfg, s, chaddr, clk, cfg.serverId);
  }

  lemma SameReserved(s: Pool, s0: Pool, chaddr: Chaddr)
    requires s.bindings == s0.bindings
    ensures IsReserved(s, chaddr) == IsReserved(s0, chaddr)
  {
  }

  lemma FreeIgnoresStart(cfg: Config, s: Pool, s0: Pool, chaddr: Chaddr)
    requires s.leases == s0.leases
    ensures forall ip: u32, now: u64 :: Free(cfg, s, chaddr, ip, now) == Free(cfg, s0, chaddr, ip, now)
  {
  }

  lemma GiveIgnoresStart(cfg: Config, s: Pool, s0: Pool, chaddr: Chaddr, ip: u32, now: u64)
    requires s.leases == s0.leases && s.bindings == s0.bindings
    ensures Give(cfg, s, chaddr, ip, now).(distribution := ip) == Give(cfg, s0, chaddr, ip, now).(distribution := ip)
  {
  }

  lemma FreeLater(cfg: Config, s: Pool, chaddr: Chaddr, ip: u32, now: u64, later: u64)
    requires now <= later
    ensures Free(cfg, s, chaddr, ip, now) ==> Free(cfg, s, chaddr, ip, later)
  {
  }

  // ----- The binding key is not injective -----

  const CLIENT_A: Chaddr := [2, 0, 0, 0, 1, 35, 0, 0, 0, 0, 0, 0, 0, 0, 0, 0]
  const CLIENT_B: Chaddr := [2, 0, 0, 0, 2, 0, 0, 0, 0, 0, 0, 0, 0, 0, 0, 0]

  lemma {:induction false} HashSuffix(c: seq<u8>, d: seq<u8>, tail: seq<u8>)
    requires HashOctets(c) == HashOctets(d)
    ensures HashOctets(c + tail) == HashOctets(d + tail)
  {
    hide HashStep;
    if tail == [] {
      assert c + tail == c && d + tail == d;
    } else {
      var n := |tail| - 1;
      HashSuffix(c, d, tail[..n]);
      assert (c + tail)[..|c + tail| - 1] == c + tail[..n];
      assert (d + tail)[..|d + tail| - 1] == d + tail[..n];
    }
  }

  lemma {:induction false} HashAppend(c: seq<u8>, b: u8)
    ensures HashOctets(c + [b]) == HashStep(HashOctets(c), b)
  {
    hide HashStep;
    assert (c + [b])[..|c|] == c;
  }

  /** Two clients with different MACs can share one key, and so one binding. */
  lemma MacHashCollides()
    ensures Mac(CLIENT_A) != Mac(CLIENT_B) && MacAddrHash(CLIENT_A) == MacAddrHash(CLIENT_B)
  {
    hide HashOctets, HashStep;
    assert HashOctets([]) == 5381 by { HashOfNothing(); }
    HashAppend([], 2);
    HashAppend([2], 0);
    HashAppend([2, 0], 0);
    HashAppend([2, 0, 0], 0);
    var c: seq<u8> := [2, 0, 0, 0];
    assert [] + [2] == [2] && [2] + [0] == [2, 0] && [2, 0] + [0] == [2, 0, 0] && [2, 0, 0] + [0] == c;
    CollidingSteps();
    HashAppend(c, 1);
    HashAppend(c + [1], 35);
    HashAppend(c, 2);
    HashAppend(c + [2], 0);
    HashSuffix(c + [1] + [35], c + [2] + [0], PADDING);
    assert CLIENT_A == c + [1] + [35] + PADDING && CLIENT_B == c + [2] + [0] + PADDING;
    assert CLIENT_A[4] != CLIENT_B[4];
  }

  lemma CollidingSteps()
    ensures HashStep(5381, 2) == 177575 && HashStep(177575, 0) == 5859975
    ensures HashStep(5859975, 0) == 193379175 && HashStep(193379175, 0) == 6381512775
    ensures HashStep(HashStep(6381512775, 1), 35) == HashStep(HashStep(6381512775, 2), 0)
  {
  }

  lemma HashOfNothing()
    ensures HashOctets([]) == 5381
  {
  }

  lemma StepKeepsLowBits(h: bv64, g: bv64, b: u8)
    requires h & 31 != g & 31
    ensures HashStep(h, b) & 31 != HashStep(g, b) & 31
  {
    var x := b as bv64;
    LowBitsOfStep(h, x);
    LowBitsOfStep(g, x);
    hide HashStep;
  }

  lemma LowBitsOfStep(h: bv64, x: bv64)
    ensures (((h << 5) + h) ^ x) & 31 == (h & 31) ^ (x & 31)
  {
  }

  /** Hardware addresses that differ in one octet, in its low five bits, have different keys. */
  lemma {:induction false} KeysDiffer(prefix: seq<u8>, x: u8, y: u8, tail: seq<u8>)
    requires (x as bv64) & 31 != (y as bv64) & 31
    ensures HashOctets(prefix + [x] + tail) & 31 != HashOctets(prefix + [y] + tail) & 31
    decreases |tail|
  {
    if tail == [] {
      HashAppend(prefix, x);
      HashAppend(prefix, y);
      assert prefix + [x] + tail == prefix + [x] && prefix + [y] + tail == prefix + [y];
      LowBitsOfStep(HashOctets(prefix), x as bv64);
      LowBitsOfStep(HashOctets(prefix), y as bv64);
    } else {
      var n := |tail| - 1;
      KeysDiffer(prefix, x, y, tail[..n]);
      HashAppend(prefix + [x] + tail[..n], tail[n]);
      HashAppend(prefix + [y] + tail[..n], tail[n]);
      assert prefix + [x] + tail == prefix + [x] + tail[..n] + [tail[n]];
      assert prefix + [y] + tail == prefix + [y] + tail[..n] + [tail[n]];
      hide HashOctets, HashStep;
      StepKeepsLowBits(HashOctets(prefix + [x] + tail[..n]), HashOctets(prefix + [y] + tail[..n]), tail[n]);
    }
  }

  function FromKey(key: u64): bv64 {
    key as bv64
  }

  lemma FromToKey(h: bv64)
    ensures FromKey(ToKey(h)) == h
  {
  }

  /** Different words are different numbers. */
  lemma DifferentNumbers(h: bv64, g: bv64)
    requires h & 31 != g & 31
    ensures ToKey(h) != ToKey(g)
  {
    hide ToKey, FromKey;
    FromToKey(h);
    FromToKey(g);
  }
}
