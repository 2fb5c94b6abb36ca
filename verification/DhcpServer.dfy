/**
 The server itself: tables changed in place by its operations, each proved to do to the
 tables exactly what its specification function in `AddressPool` or `ServerHandlers` says.
 */
module DhcpServer {
  import opened Words
  import opened AddressUtils
  import opened AddressPool
  import opened ServerHandlers
  import opened LeaseOwnership

  class Server {
    const cfg: Config
    var bindings: map<u64, Binding>
    var leases: map<u32, Binding>
    var distribution: u32

    ghost function State(): Pool
      reads this
    {
      Pool(bindings, leases, distribution)
    }

    /** A server started from the records of its lease file. */
    constructor (cfg: Config, records: seq<Binding>)
      ensures this.cfg == cfg
      ensures leases == LoadLeases(cfg, records) && TablesOk(cfg, State())
    {
      this.cfg := cfg;
      bindings, leases, distribution := map[], map[], 0;
      new;
      LoadBindingRecoders(records);
      ghost var order := InitBindingRecoders();
      StartIsSafe(cfg, records, order);
    }

    method LoadBindingRecoders(records: seq<Binding>)
      requires leases == map[]
      modifies this`leases
      ensures leases == LoadLeases(cfg, records)
    {
      for i := 0 to |records|
        invariant leases == LoadLeases(cfg, records[..i])
      {
        assert records[..i + 1][..i] == records[..i];
        if InRange(cfg, records[i].ip) {
          leases := leases[records[i].ip := records[i]];
        }
      }
      assert records[..|records|] == records;
    }

    method InitBindingRecoders() returns (ghost order: seq<u32>)
      modifies this`bindings, this`distribution
      ensures forall ip :: ip in order <==> ip in leases
      ensures State() == InitBindings(old(State()), order)
    {
      order := [];
      var left := leases.Keys;
      while left != {}
        invariant left <= leases.Keys
        invariant forall ip :: ip in order <==> ip in leases && ip !in left
        invariant State() == InitBindings(old(State()), order)
      {
        var ip :| ip in left;
        var b := leases[ip];
        ghost var before := order;
        order := order + [ip];
        assert order[..|order| - 1] == before;
        left := left - {ip};
        if !IsEmptyHWAddr(b.chaddr) && b.ip != 0 {
          if MacAddrHash(b.chaddr) !in bindings {
            bindings := bindings[MacAddrHash(b.chaddr) := b];
          }
          if distribution < b.ip {
            distribution := b.ip;
          }
        }
      }
    }

    // ----- Pool operations -----

    method IsExpire(ip: u32, now: u64) returns (expired: bool)
      requires ip in leases
      modifies this`leases
      ensures expired == ExpiredAt(old(leases[ip]), now)
      ensures leases == old(leases)[ip := AfterIsExpire(old(leases[ip]), now)]
    {
      var lease := leases[ip];
      var leaseTime := lease.leaseTime;
      if leaseTime == 0 {
        leaseTime := DHCP_LEASE_TIME;
      }
      var expireIn := lease.expireIn;
      if lease.status == BIND_PENDING {
        expireIn := Add64(lease.pendingTime, leaseTime);
      } else if lease.status == BIND_ASSOCIATED {
        expireIn := Add64(lease.bindingTime, leaseTime);
      }
      expired := now > expireIn;
      if expired {
        leases := leases[ip := lease.(status := BIND_EXPIRED)];
      }
    }

    method CheckIpAvailability(chaddr: Chaddr, distIp: u32, clk: Clock) returns (ok: bool)
      modifies this`leases, this`bindings
      ensures (State(), ok) == AddressPool.CheckIpAvailability(cfg, old(State()), chaddr, distIp, clk)
    {
      hide MacAddrHash, ExpiryOf;
      if IsReserved(Pool(bindings, leases, distribution), chaddr) {
        return false;
      }
      if distIp == 0 || distIp !in leases {
        return true;
      }
      var same := Mac(leases[distIp].chaddr) == Mac(chaddr);
      if distIp == cfg.serverId || distIp == cfg.gateway {
        return false;
      }
      if leases[distIp].mode == BIND_MODE_STATIC && !same {
        return false;
      }
      if leases[distIp].mode == BIND_MODE_RESERVED && !same {
        return false;
      }
      if same {
        leases := leases[distIp := leases[distIp].(pendingTime := clk(1), bindingTime := clk(1))];
        return true;
      }
      ok := IsExpire(distIp, clk(0));
      if ok {
        var lease := leases[distIp].(pendingTime := clk(1), bindingTime := clk(1));
        bindings := bindings - {MacAddrHash(lease.chaddr)};
        leases := leases[distIp := lease.(chaddr := Mac(chaddr) + lease.chaddr[6..])];
        assert leases == Evict(old(State()), chaddr, distIp, clk(1)).leases;
      } else {
        assert leases == old(leases);
      }
    }

    /** The loop that hands out addresses one after another, starting from where it last stopped. */
    method AddressDistribute(chaddr: Chaddr, clk: Clock) returns (ip: u32)
      modifies this
      ensures (State(), ip) == AddressPool.AddressDistribute(cfg, old(State()), chaddr, clk)
    {
      hide NextIpAddress, IpInRange, MacAddrHash, AddressPool.CheckIpAvailability, HostTotal;
      if cfg.begin == 0 || cfg.end == 0 || cfg.netmask == 0 || IsEmptyHWAddr(chaddr) {
        return 0;
      }
      if distribution == 0 {
        distribution := cfg.begin;
      }
      var total := HostTotalLoop(cfg.netmask);
      var distIp: u32 := if distribution < cfg.begin then cfg.begin else distribution;
      ghost var s0, start := State(), distIp;
      var readings := clk;
      var i := 0;
      while i < total
        invariant 0 <= i <= total
        invariant distribution == s0.distribution
        invariant Scan(cfg, s0, chaddr, start, total, clk) == Scan(cfg, State(), chaddr, distIp, total - i, readings)
      {
        ghost var s1 := State();
        distIp := NextIpAddress(distIp, cfg.netmask, 0);
        var ok := CheckIpAvailability(chaddr, distIp, readings);
        if ok && InRange(cfg, distIp) {
          InRangeNonzero(distIp);
          leases := leases[distIp := DistributedLease(cfg, chaddr, distIp, readings(2))];
          assert Mac(DistributedLease(cfg, chaddr, distIp, readings(2)).chaddr) == Mac(chaddr);
          distribution := distIp;
          return distIp;
        }
        readings := Later(readings, 3);
        i := i + 1;
      }
      ip := 0;
    }

    lemma InRangeNonzero(ip: u32)
      requires InRange(cfg, ip) && cfg.begin != 0
      ensures ip != 0
    {
      hide NetworkAddress;
    }

    method DeleteMacInLease(mac: seq<u8>)
      modifies this`leases
      ensures State() == AddressPool.DeleteMacInLease(old(State()), mac)
    {
      var left := leases.Keys;
      while left != {}
        invariant left <= leases.Keys <= old(leases).Keys
        invariant forall ip <- leases :: leases[ip] == old(leases)[ip]
        invariant forall ip <- old(leases) | ip !in left :: ip in leases <==> Mac(old(leases)[ip].chaddr) != mac
      {
        var ip :| ip in left;
        if Mac(leases[ip].chaddr) == mac {
          leases := leases - {ip};
        }
        left := left - {ip};
      }
      assert leases == AddressPool.DeleteMacInLease(old(State()), mac).leases;
    }

    method AddLease(b: Binding)
      modifies this`leases
      ensures State() == AddressPool.AddLease(old(State()), b)
    {
      if b.ip == 0 || IsEmptyHWAddr(b.chaddr) {
        return;
      }
      leases := leases[b.ip := b];
    }

    method RemoveLease(b: Binding)
      modifies this`leases
      ensures State() == AddressPool.RemoveLease(old(State()), b)
    {
      if b.ip == 0 || IsEmptyHWAddr(b.chaddr) {
        return;
      }
      leases := leases - {b.ip};
    }

    // ----- Message handlers -----

    method GetBinding(chaddr: Chaddr, clk: Clock)
      modifies this
      ensures State() == ServerHandlers.GetBinding(cfg, old(State()), chaddr, clk)
    {
      hide AddressPool.AddressDistribute, MacAddrHash;
      var key := MacAddrHash(chaddr);
      if key in bindings {
        return;
      }
      var b := NewBinding(chaddr, clk(0), clk(1));
      if cfg.leaseTime != 0 {
        b := b.(leaseTime := cfg.leaseTime);
      }
      bindings := bindings[key := b];
      var ip := AddressDistribute(chaddr, Later(clk, 2));
      if key in bindings {
        bindings := bindings[key := bindings[key].(ip := ip)];
      }
    }

    method OnReceivedDiscover(m: Message, clk: Clock) returns (reply: Reply)
      modifies this
      ensures (State(), reply) == ServerHandlers.OnReceivedDiscover(cfg, old(State()), m, clk)
    {
      hide ServerHandlers.GetBinding, AddressPool.DeleteMacInLease, MacAddrHash, IsEmptyHWAddr;
      GetBinding(m.chaddr, clk);
      var key := MacAddrHash(m.chaddr);
      if key !in bindings {
        return FreedBinding;
      }
      var b := bindings[key];
      if b.ip == 0 {
        return NoReply;
      }
      DeleteMacInLease(Mac(b.chaddr));
      if b.ip !in leases {
        AddLease(b);
      }
      if b.ip !in leases {
        return NoReply;
      }
      reply := Offer(leases[b.ip].ip);
    }

    method NotBindingRequest(m: Message, clk: Clock) returns (reply: Reply)
      modifies this
      ensures (State(), reply) == ServerHandlers.NotBindingRequest(cfg, old(State()), m, clk)
    {
      hide MacAddrHash, IsEmptyHWAddr, GetYourIpAddress, ExpiryOf, Repending;
      var (yourIp, ok) := GetYourIpAddress(cfg, m, 0);
      if !ok {
        return NoReply;
      }
      if yourIp == 0 || yourIp !in leases {
        return Nak;
      }
      if leases[yourIp].status == BIND_ASSOCIATED && !SameMac(leases[yourIp], m.chaddr) {
        var expired := IsExpire(yourIp, clk(0));
        if !expired {
          assert leases == old(leases);
          return Nak;
        }
        RemoveLease(leases[yourIp]);
      }
      var b := NewBinding(m.chaddr, clk(1), clk(2)).(ip := yourIp);
      if cfg.leaseTime != 0 {
        b := b.(leaseTime := cfg.leaseTime);
      }
      var (b2, answer) := Repending(b, clk(3));
      bindings := bindings[MacAddrHash(m.chaddr) := b2];
      if !answer {
        return NoReply;
      }
      if yourIp !in leases {
        AddLease(b2);
      }
      if yourIp !in leases {
        return NoReply;
      }
      leases := leases[yourIp := leases[yourIp].(status := BIND_ASSOCIATED, bindingTime := clk(4),
                                                 expireIn := Add64(clk(4), b2.leaseTime))];
      reply := Ack(leases[yourIp].ip);
    }

    method OnReceivedRequest(m: Message, clk: Clock) returns (reply: Reply)
      modifies this
      ensures (State(), reply) == ServerHandlers.OnReceivedRequest(cfg, old(State()), m, clk)
    {
      hide MacAddrHash, IsEmptyHWAddr, GetYourIpAddress, ExpiryOf, Repending, IpInNetwork,
        ServerHandlers.NotBindingRequest;
      var (yourIp, ok) := GetYourIpAddress(cfg, m, INADDR_BROADCAST);
      if !ok {
        if yourIp == 0 || yourIp == INADDR_BROADCAST {
          return NoReply;
        }
        if yourIp in leases {
          RemoveLease(leases[yourIp]);
        }
        bindings := bindings - {MacAddrHash(m.chaddr)};
        return Nak;
      }
      if m.serverId.Some? && m.serverId.value != cfg.serverId {
        return NoReply;
      }
      var key := MacAddrHash(m.chaddr);
      if key !in bindings {
        if RequestedIp(m) == 0 {
          return NoReply;
        }
        if !IpInNetwork(RequestedIp(m), cfg.serverId, cfg.netmask) {
          return Nak;
        }
        reply := NotBindingRequest(m, clk);
        return;
      }
      var b := Rebinding(cfg, bindings[key], clk(0), clk(1));
      bindings := bindings[key := b];
      if yourIp != 0 && yourIp in leases {
        ghost var lease := leases[yourIp];
        if !SameMac(leases[yourIp], m.chaddr) {
          var expired := IsExpire(yourIp, clk(2));
          if !expired {
            assert leases == old(leases);
            return Nak;
          }
          expired := IsExpire(yourIp, clk(3));
          if expired {
            leases := leases[yourIp := leases[yourIp].(chaddr := Mac(b.chaddr) + leases[yourIp].chaddr[6..])];
          }
        }
        leases := leases[yourIp := leases[yourIp].(status := BIND_ASSOCIATED, bindingTime := b.bindingTime,
                                                   expireIn := b.expireIn)];
        assert leases[yourIp] == RequestedLease(lease, b, m, clk);
        assert leases == old(leases)[yourIp := RequestedLease(lease, b, m, clk)];
      }
      if b.ip != 0 && yourIp != INADDR_BROADCAST && yourIp != b.ip {
        return Nak;
      }
      reply := Ack(b.ip);
    }

    method OnReceivedDecline(m: Message, clk: Clock) returns (reply: Reply)
      modifies this`leases, this`bindings
      ensures (State(), reply) == ServerHandlers.OnReceivedDecline(old(State()), m, clk)
    {
      hide MacAddrHash;
      reply := NoReply;
      var reqIp, key := RequestedIp(m), MacAddrHash(m.chaddr);
      if reqIp == 0 || key !in bindings || bindings[key].ip != reqIp {
        return;
      }
      if reqIp in leases {
        var lease := leases[reqIp];
        leases := leases[reqIp := lease.(status := BIND_MODE_RESERVED, expireIn := Add64(clk(0), lease.leaseTime))];
      }
      bindings := bindings - {key};
    }

    method OnReceivedRelease(m: Message) returns (reply: Reply)
      modifies this`leases, this`bindings
      ensures (State(), reply) == ServerHandlers.OnReceivedRelease(old(State()), m)
    {
      hide MacAddrHash, IsEmptyHWAddr;
      reply := NoReply;
      var key := MacAddrHash(m.chaddr);
      if key !in bindings {
        return;
      }
      var b := bindings[key];
      if b.ip != 0 && RequestedIp(m) != 0 && RequestedIp(m) != b.ip {
        return;
      }
      if b.ip != 0 && b.ip in leases {
        RemoveLease(leases[b.ip]);
      }
      bindings := bindings[key := b.(status := BIND_RELEASED)];
    }

    /**
     One turn of the looper keeps the tables sound, lets no filed lease change hands while live, and
     ends of the live leases of others exactly those that the message drops.
     */
    method MessageProcess(m: Message, clk: Clock) returns (reply: Reply)
      requires TablesOk(cfg, State())
      modifies this
      ensures (State(), reply) == Step(cfg, old(State()), m, clk)
      ensures TablesOk(cfg, State()) && ReplyOk(cfg, State(), m, reply)
      ensures NoLiveLeaseTaken(old(leases), leases, clk, Readings(cfg, m.kind))
      ensures EndsOnlyDropped(cfg, old(State()), m, leases, clk)
    {
      LiveLeaseLostIff(cfg, State(), m, clk);
      hide TablesOk, ReplyOk, NoLiveLeaseTaken, EndsOnlyDropped, Readings, MacAddrHash, IsEmptyHWAddr,
        ServerHandlers.OnReceivedDiscover, ServerHandlers.OnReceivedRequest,
        ServerHandlers.OnReceivedDecline, ServerHandlers.OnReceivedRelease;
      StepKeepsTables(cfg, State(), m, clk);
      StepTakesNoLiveLease(cfg, State(), m, clk);
      if IsEmptyHWAddr(m.chaddr) || IsReserved(Pool(bindings, leases, distribution), m.chaddr) {
        return NoReply;
      }
      match m.kind {
        case Discover => reply := OnReceivedDiscover(m, clk);
        case Request => reply := OnReceivedRequest(m, clk);
        case Decline => reply := OnReceivedDecline(m, clk);
        case Release => reply := OnReceivedRelease(m);
      }
    }
  }
}
