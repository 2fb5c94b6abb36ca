/**
 The server's message handlers as functions from tables to tables and a reply, and what
 they keep: over one message and over every run of messages.

 The source address of a datagram is always read back as 0 by the handlers, because the
 accessor resets it, so the branches on a nonzero source address are not present here.
 */
module ServerHandlers {
  import opened Wrappers
  import opened Words
  import opened AddressUtils
  import opened AddressPool

  const INADDR_BROADCAST: u32 := 0xFFFF_FFFF

  datatype Kind = Discover | Request | Decline | Release

  /** The parts of a received message the handlers look at; options hold their first four octets. */
  datatype Message = Message(
    kind: Kind, chaddr: Chaddr, ciaddr: u32, requestedIp: Option<u32>, serverId: Option<u32>)

  /**
   A reply, or none. `FreedBinding` stands for the one path where the handler goes on writing
   to a binding that distribution has just erased: nothing is promised about it.
   */
  datatype Reply = NoReply | Offer(yiaddr: u32) | Ack(yiaddr: u32) | Nak | FreedBinding

  function RequestedIp(m: Message): u32 {
    match m.requestedIp
    case None => 0
    case Some(ip) => ip
  }

  // ----- Pending and rebinding -----

  function NextPendingInterval(interval: u64): u64 {
    if interval < 3 then interval + 1
    else if interval < 10 then interval + 2
    else if interval < 30 then interval + 5
    else 1200
  }

  /** The binding after `Repending`, and whether the message came late enough to be answered. */
  function Repending(b: Binding, now: u64): (Binding, bool) {
    var interval := NextPendingInterval(b.pendingInterval);
    var waited := if now > b.pendingTime then now - b.pendingTime else 0;
    if waited < interval then (b.(pendingInterval := interval, pendingTime := now), false)
    else (b.(pendingTime := now, pendingInterval := 0, status := BIND_PENDING), true)
  }

  function Rebinding(cfg: Config, b: Binding, now: u64, tBind: u64): Binding {
    var b1 := Repending(b, now).0;
    var leaseTime := if b1.leaseTime == 0 then cfg.leaseTime else b1.leaseTime;
    b1.(status := BIND_ASSOCIATED, leaseTime := leaseTime, bindingTime := tBind,
        expireIn := Add64(tBind, leaseTime), pendingTime := b.pendingTime)
  }

  // ----- DISCOVER -----

  /** The client's binding; a client without one gets a new one with a distributed address. */
  function GetBinding(cfg: Config, s: Pool, chaddr: Chaddr, clk: Clock): Pool {
    var key := MacAddrHash(chaddr);
    if key in s.bindings then s
    else
      var b := NewBinding(chaddr, clk(0), clk(1));
      var b1 := if cfg.leaseTime != 0 then b.(leaseTime := cfg.leaseTime) else b;
      var (s1, ip) := AddressDistribute(cfg, s.(bindings := s.bindings[key := b1]), chaddr, Later(clk, 2));
      if key in s1.bindings then s1.(bindings := s1.bindings[key := s1.bindings[key].(ip := ip)]) else s1
  }

  function DiscoverReplyLease(s: Pool, b: Binding): (Pool, Reply) {
    var s1 := if HasLease(s, b.ip) then s else AddLease(s, b);
    if HasLease(s1, b.ip) then (s1, Offer(s1.leases[b.ip].ip)) else (s1, NoReply)
  }

  function OnReceivedDiscover(cfg: Config, s: Pool, m: Message, clk: Clock): (Pool, Reply) {
    var key := MacAddrHash(m.chaddr);
    var s1 := GetBinding(cfg, s, m.chaddr, clk);
    if key !in s1.bindings then (s1, FreedBinding)
    else
      var b := s1.bindings[key];
      if b.ip == 0 then (s1, NoReply)
      else DiscoverReplyLease(DeleteMacInLease(s1, Mac(b.chaddr)), b)
  }

  // ----- REQUEST -----

  /** The address the client asks for, `ciaddr` before option 50 and `unset` if none, and whether it is usable. */
  function GetYourIpAddress(cfg: Config, m: Message, unset: u32): (u32, bool) {
    var cliIp, reqIp := m.ciaddr, RequestedIp(m);
    if (cliIp != 0 && reqIp != 0 && cliIp != reqIp) || (cliIp == 0 && reqIp == 0) then (unset, false)
    else
      var yourIp := if cliIp != 0 && cliIp != INADDR_BROADCAST then cliIp
                    else if reqIp != 0 && reqIp != INADDR_BROADCAST then reqIp
                    else unset;
      (yourIp, HostInRange(yourIp, cfg.begin, cfg.end))
  }

  datatype Validation = Rejected(state: Pool, reply: Reply) | Accepted(yourIp: u32)

  function ValidateRequestMessage(cfg: Config, s: Pool, m: Message): Validation {
    var (yourIp, ok) := GetYourIpAddress(cfg, m, INADDR_BROADCAST);
    if !ok then
      if yourIp != 0 && yourIp != INADDR_BROADCAST then
        var s1 := if HasLease(s, yourIp) then RemoveLease(s, s.leases[yourIp]) else s;
        Rejected(RemoveBinding(s1, m.chaddr), Nak)
      else Rejected(s, NoReply)
    else if m.serverId.Some? && m.serverId.value != cfg.serverId then Rejected(s, NoReply)
    else Accepted(yourIp)
  }

  function NotBindingRequest(cfg: Config, s: Pool, m: Message, clk: Clock): (Pool, Reply) {
    var (yourIp, ok) := GetYourIpAddress(cfg, m, 0);
    if !ok then (s, NoReply)
    else if !HasLease(s, yourIp) then (s, Nak)
    else
      var lease := s.leases[yourIp];
      var foreign := lease.status == BIND_ASSOCIATED && !SameMac(lease, m.chaddr);
      if foreign && !ExpiredAt(lease, clk(0)) then (s, Nak)
      else
        var looked := AfterIsExpire(lease, clk(0));
        var s1 := if foreign then RemoveLease(s.(leases := s.leases[yourIp := looked]), looked) else s;
        var b := NewBinding(m.chaddr, clk(1), clk(2)).(ip := yourIp);
        var b1 := if cfg.leaseTime != 0 then b.(leaseTime := cfg.leaseTime) else b;
        var (b2, answer) := Repending(b1, clk(3));
        var s2 := s1.(bindings := s1.bindings[MacAddrHash(m.chaddr) := b2]);
        if !answer then (s2, NoReply)
        else
          var s3 := if HasLease(s2, yourIp) then s2 else AddLease(s2, b2);
          if !HasLease(s3, yourIp) then (s3, NoReply)
          else
            var kept := s3.leases[yourIp].(status := BIND_ASSOCIATED, bindingTime := clk(4),
                                           expireIn := Add64(clk(4), b2.leaseTime));
            (s3.(leases := s3.leases[yourIp := kept]), Ack(kept.ip))
  }

  function HasNoBindingRequest(cfg: Config, s: Pool, m: Message, clk: Clock): (Pool, Reply) {
    if RequestedIp(m) == 0 then (s, NoReply)
    else if !IpInNetwork(RequestedIp(m), cfg.serverId, cfg.netmask) then (s, Nak)
    else NotBindingRequest(cfg, s, m, clk)
  }

  /**
   The lease record a rebinding client leaves: `IsExpire` is asked twice, and the owner
   is rewritten only if the second verdict, on the record the first one marked, agrees.
   */
  function RequestedLease(lease: Binding, b: Binding, m: Message, clk: Clock): Binding {
    var marked := if SameMac(lease, m.chaddr) then lease else AfterIsExpire(lease, clk(2));
    var takeOver := !SameMac(lease, m.chaddr) && ExpiredAt(marked, clk(3));
    var owned := if takeOver then marked.(chaddr := Mac(b.chaddr) + marked.chaddr[6..]) else marked;
    owned.(status := BIND_ASSOCIATED, bindingTime := b.bindingTime, expireIn := b.expireIn)
  }

  function OnReceivedRequest(cfg: Config, s: Pool, m: Message, clk: Clock): (Pool, Reply) {
    match ValidateRequestMessage(cfg, s, m)
    case Rejected(s1, reply) => (s1, reply)
    case Accepted(yourIp) =>
      var key := MacAddrHash(m.chaddr);
      if key !in s.bindings then HasNoBindingRequest(cfg, s, m, clk)
      else
        var b := Rebinding(cfg, s.bindings[key], clk(0), clk(1));
        var s1 := s.(bindings := s.bindings[key := b]);
        if HasLease(s, yourIp) && !SameMac(s.leases[yourIp], m.chaddr) && !ExpiredAt(s.leases[yourIp], clk(2)) then
          (s1, Nak)
        else
          var s2 := if HasLease(s, yourIp)
                    then s1.(leases := s1.leases[yourIp := RequestedLease(s.leases[yourIp], b, m, clk)]) else s1;
          if b.ip != 0 && yourIp != INADDR_BROADCAST && yourIp != b.ip then (s2, Nak) else (s2, Ack(b.ip))
  }

  // ----- DECLINE and RELEASE -----

  /** The status stored on a declined lease is the number of a mode, and reads back as BIND_ASSOCIATED. */
  function OnReceivedDecline(s: Pool, m: Message, clk: Clock): (Pool, Reply) {
    var reqIp, key := RequestedIp(m), MacAddrHash(m.chaddr);
    if reqIp == 0 || key !in s.bindings || s.bindings[key].ip != reqIp then (s, NoReply)
    else
      var s1 := if reqIp in s.leases then
                  var lease := s.leases[reqIp];
                  var declined := lease.(status := BIND_MODE_RESERVED, expireIn := Add64(clk(0), lease.leaseTime));
                  s.(leases := s.leases[reqIp := declined])
                else s;
      (RemoveBinding(s1, m.chaddr), NoReply)
  }

  function OnReceivedRelease(s: Pool, m: Message): (Pool, Reply) {
    var key := MacAddrHash(m.chaddr);
    if key !in s.bindings then (s, NoReply)
    else
      var b := s.bindings[key];
      var reqIp := RequestedIp(m);
      if b.ip != 0 && reqIp != 0 && reqIp != b.ip then (s, NoReply)
      else
        var s1 := if HasLease(s, b.ip) then RemoveLease(s, s.leases[b.ip]) else s;
        (s1.(bindings := s1.bindings[key := b.(status := BIND_RELEASED)]), NoReply)
  }

  /** One turn of the looper: messages without a MAC or from a reserved client are dropped. */
  function Step(cfg: Config, s: Pool, m: Message, clk: Clock): (Pool, Reply) {
    if IsEmptyHWAddr(m.chaddr) || IsReserved(s, m.chaddr) then (s, NoReply)
    else match m.kind
      case Discover => OnReceivedDiscover(cfg, s, m, clk)
      case Request => OnReceivedRequest(cfg, s, m, clk)
      case Decline => OnReceivedDecline(s, m, clk)
      case Release => OnReceivedRelease(s, m)
  }

  // ----- No filed lease changes hands while live -----

  /** How many readings of the clock a message may take: a DISCOVER may search the pool. */
  function Readings(cfg: Config, kind: Kind): nat {
    if kind == Discover then 2 + 3 * HostTotal(cfg.netmask) else 5
  }

  /** A lease entry that survives a step with another owner had expired at one of the readings taken. */
  predicate NoLiveLeaseTaken(before: map<u32, Binding>, after: map<u32, Binding>, clk: Clock, taken: nat) {
    forall ip <- before | ip in after && Mac(before[ip].chaddr) != Mac(after[ip].chaddr) ::
      ExpiredDuring(before[ip], clk, taken)
  }

  lemma DistributeTakesOnlyExpired(cfg: Config, s: Pool, chaddr: Chaddr, clk: Clock)
    ensures OnlyExpiredTaken(s.leases, AddressDistribute(cfg, s, chaddr, clk).0.leases, chaddr, clk,
                             3 * HostTotal(cfg.netmask))
  {
    hide NextIpAddress, IpInRange, MacAddrHash, HostTotal, Scan;
    if CanDistribute(cfg, chaddr) {
      var s0 := if s.distribution == 0 then s.(distribution := cfg.begin) else s;
      ScanTakesOnlyExpired(cfg, s0, chaddr, ScanStart(cfg, s0), HostTotal(cfg.netmask), clk);
    }
  }

  lemma GetBindingTakesOnlyExpired(cfg: Config, s: Pool, chaddr: Chaddr, clk: Clock)
    ensures OnlyExpiredTaken(s.leases, GetBinding(cfg, s, chaddr, clk).leases, chaddr, clk,
                             2 + 3 * HostTotal(cfg.netmask))
  {
    hide AddressDistribute, MacAddrHash, ExpiredDuring, Mac, HostTotal;
    var key := MacAddrHash(chaddr);
    if key !in s.bindings {
      var b := NewBinding(chaddr, clk(0), clk(1));
      var b1 := if cfg.leaseTime != 0 then b.(leaseTime := cfg.leaseTime) else b;
      var s0 := s.(bindings := s.bindings[key := b1]);
      var taken := 3 * HostTotal(cfg.netmask);
      DistributeTakesOnlyExpired(cfg, s0, chaddr, Later(clk, 2));
      forall ip | ip in s.leases && ExpiredDuring(s.leases[ip], Later(clk, 2), taken)
        ensures ExpiredDuring(s.leases[ip], clk, 2 + taken)
      {
        ExpiredLater(s.leases[ip], clk, 2, taken);
      }
    }
  }

  lemma DiscoverTakesNoLiveLease(cfg: Config, s: Pool, m: Message, clk: Clock)
    ensures NoLiveLeaseTaken(s.leases, OnReceivedDiscover(cfg, s, m, clk).0.leases, clk, Readings(cfg, Discover))
  {
    hide GetBinding, MacAddrHash, ExpiredDuring, Mac, IsEmptyHWAddr, HostTotal;
    GetBindingTakesOnlyExpired(cfg, s, m.chaddr, clk);
    var s1 := GetBinding(cfg, s, m.chaddr, clk);
    assert NoLiveLeaseTaken(s.leases, s1.leases, clk, Readings(cfg, Discover));
  }

  lemma NotBindingTakesNoLiveLease(cfg: Config, s: Pool, m: Message, clk: Clock)
    ensures NoLiveLeaseTaken(s.leases, NotBindingRequest(cfg, s, m, clk).0.leases, clk, 5)
  {
    hide MacAddrHash, Mac, IsEmptyHWAddr, GetYourIpAddress, ExpiryOf;
    var (yourIp, ok) := GetYourIpAddress(cfg, m, 0);
    if ok && HasLease(s, yourIp) && ExpiredAt(s.leases[yourIp], clk(0)) {
      assert ExpiredDuring(s.leases[yourIp], clk, 5);
    }
  }

  lemma RequestTakesNoLiveLease(cfg: Config, s: Pool, m: Message, clk: Clock)
    ensures NoLiveLeaseTaken(s.leases, OnReceivedRequest(cfg, s, m, clk).0.leases, clk, 5)
  {
    hide MacAddrHash, IsEmptyHWAddr, GetYourIpAddress, ExpiryOf, Repending, NotBindingRequest, IpInNetwork;
    NotBindingTakesNoLiveLease(cfg, s, m, clk);
    match ValidateRequestMessage(cfg, s, m)
    case Rejected(_, _) =>
    case Accepted(yourIp) =>
      if HasLease(s, yourIp) && ExpiredAt(s.leases[yourIp], clk(2)) {
        assert ExpiredDuring(s.leases[yourIp], clk, 5);
      }
  }

  /** In every step from any tables whatever, no lease that stays filed changes hands while it is live. */
  lemma StepTakesNoLiveLease(cfg: Config, s: Pool, m: Message, clk: Clock)
    ensures NoLiveLeaseTaken(s.leases, Step(cfg, s, m, clk).0.leases, clk, Readings(cfg, m.kind))
  {
    hide OnReceivedDiscover, OnReceivedRequest, MacAddrHash, HostTotal, ExpiredDuring;
    DiscoverTakesNoLiveLease(cfg, s, m, clk);
    RequestTakesNoLiveLease(cfg, s, m, clk);
  }

  // ----- The table invariant -----

  /** In the pool by either comparison the server uses: network byte order or host byte order. */
  predicate InPool(cfg: Config, ip: u32) {
    InRange(cfg, ip) || HostInRange(ip, cfg.begin, cfg.end)
  }

  /** Leases are filed under their own address, and all addresses in the tables belong to the pool. */
  predicate TablesOk(cfg: Config, s: Pool) {
    LeasesOk(cfg, s.leases) && BindingsOk(cfg, s.bindings) && StartInRange(cfg, s)
  }

  predicate LeasesOk(cfg: Config, leases: map<u32, Binding>) {
    forall ip <- leases :: leases[ip].ip == ip && InPool(cfg, ip)
  }

  predicate BindingsOk(cfg: Config, bindings: map<u64, Binding>) {
    forall h <- bindings :: bindings[h].ip == 0 || InPool(cfg, bindings[h].ip)
  }

  lemma {:induction false} ScanKeepsTables(cfg: Config, s: Pool, chaddr: Chaddr, ip: u32, left: nat, clk: Clock)
    requires TablesOk(cfg, s)
    ensures var (s', r) := Scan(cfg, s, chaddr, ip, left, clk);
            TablesOk(cfg, s') && s'.distribution == s.distribution && (r == 0 || InRange(cfg, r))
    decreases left
  {
    hide NextIpAddress, IpInRange, HostInRange, MacAddrHash, IsReserved, Free, SameMac, IsEmptyHWAddr;
    if left > 0 {
      var next := NextIpAddress(ip, cfg.netmask, 0);
      var (s1, ok) := CheckIpAvailability(cfg, s, chaddr, next, clk);
      assert LeasesOk(cfg, s1.leases);
      assert BindingsOk(cfg, s1.bindings);
      if !(ok && InRange(cfg, next)) {
        ScanKeepsTables(cfg, s1, chaddr, next, left - 1, Later(clk, 3));
      }
    }
  }

  lemma DistributeKeepsTables(cfg: Config, s: Pool, chaddr: Chaddr, clk: Clock)
    requires TablesOk(cfg, s)
    ensures var (s', r) := AddressDistribute(cfg, s, chaddr, clk);
            TablesOk(cfg, s') && (r == 0 || InRange(cfg, r))
  {
    hide IpInRange, HostInRange, Scan, HostTotal;
    if CanDistribute(cfg, chaddr) {
      var s0 := if s.distribution == 0 then s.(distribution := cfg.begin) else s;
      ScanKeepsTables(cfg, s0, chaddr, ScanStart(cfg, s0), HostTotal(cfg.netmask), clk);
    }
  }

  lemma GetBindingKeepsTables(cfg: Config, s: Pool, chaddr: Chaddr, clk: Clock)
    requires TablesOk(cfg, s)
    ensures TablesOk(cfg, GetBinding(cfg, s, chaddr, clk))
  {
    hide IpInRange, HostInRange, AddressDistribute, MacAddrHash;
    var key := MacAddrHash(chaddr);
    if key !in s.bindings {
      var b := NewBinding(chaddr, clk(0), clk(1));
      var b1 := if cfg.leaseTime != 0 then b.(leaseTime := cfg.leaseTime) else b;
      DistributeKeepsTables(cfg, s.(bindings := s.bindings[key := b1]), chaddr, Later(clk, 2));
    }
  }

  /** After an offer the binding's MAC holds at most the lease of the address on offer. */
  predicate OneLeaseAfterOffer(s: Pool, chaddr: Chaddr, yiaddr: u32) {
    var key := MacAddrHash(chaddr);
    key in s.bindings &&
    forall ip <- s.leases :: Mac(s.leases[ip].chaddr) == Mac(s.bindings[key].chaddr) ==> ip == yiaddr
  }

  lemma DiscoverKeepsTables(cfg: Config, s: Pool, m: Message, clk: Clock)
    requires TablesOk(cfg, s)
    ensures var (s', reply) := OnReceivedDiscover(cfg, s, m, clk);
            && TablesOk(cfg, s')
            && (reply.Offer? ==> reply.yiaddr != 0 && InPool(cfg, reply.yiaddr)
                                 && OneLeaseAfterOffer(s', m.chaddr, reply.yiaddr))
            && !reply.Ack? && !reply.Nak?
  {
    hide IpInRange, HostInRange, GetBinding, MacAddrHash, Mac, IsEmptyHWAddr;
    GetBindingKeepsTables(cfg, s, m.chaddr, clk);
  }

  // ----- Requests and the tables -----

  /** The address a REQUEST names: `ciaddr` if it is a real address, else option 50. */
  function AskedFor(m: Message): u32 {
    if m.ciaddr != 0 && m.ciaddr != INADDR_BROADCAST then m.ciaddr else RequestedIp(m)
  }

  /** A REQUEST that names the broadcast address and no other. */
  predicate NamesOnlyBroadcast(m: Message) {
    && (m.ciaddr == 0 || m.ciaddr == INADDR_BROADCAST)
    && (RequestedIp(m) == 0 || RequestedIp(m) == INADDR_BROADCAST)
    && (m.ciaddr != 0 || RequestedIp(m) != 0)
  }

  /**
   An acknowledged address is 0 or the one asked for, unless the pool ends at the broadcast
   address and only that is asked for.
   */
  predicate AckOk(cfg: Config, m: Message, yiaddr: u32) {
    yiaddr == 0 || yiaddr == AskedFor(m) || (cfg.end == INADDR_BROADCAST && NamesOnlyBroadcast(m))
  }

  lemma NotBindingKeepsTables(cfg: Config, s: Pool, m: Message, clk: Clock)
    requires TablesOk(cfg, s)
    ensures var (s', reply) := NotBindingRequest(cfg, s, m, clk);
            TablesOk(cfg, s') && !reply.Offer? && (reply.Ack? ==> reply.yiaddr == AskedFor(m))
  {
    hide IpInRange, HostInRange, MacAddrHash, IsEmptyHWAddr, SameMac, ExpiryOf;
  }

  lemma RequestKeepsTables(cfg: Config, s: Pool, m: Message, clk: Clock)
    requires TablesOk(cfg, s)
    ensures var (s', reply) := OnReceivedRequest(cfg, s, m, clk);
            && TablesOk(cfg, s')
            && !reply.Offer?
            && (reply.Ack? ==> AckOk(cfg, m, reply.yiaddr))
  {
    hide IpInRange, MacAddrHash, IsEmptyHWAddr, SameMac, ExpiryOf, NotBindingRequest, IpInNetwork, Htonl;
    NotBindingKeepsTables(cfg, s, m, clk);
    HtonlInvolution(cfg.end);
    assert Htonl(INADDR_BROADCAST) == INADDR_BROADCAST by { BroadcastSwapped(); }
  }

  /**
   In that one case the address asked for is not compared: a client with a binding is
   acknowledged the address of its binding, whatever that is.
   */
  lemma BroadcastRequestIsAcked(cfg: Config, s: Pool, m: Message, clk: Clock)
    requires cfg.end == INADDR_BROADCAST && NamesOnlyBroadcast(m) && m.serverId.None?
    requires MacAddrHash(m.chaddr) in s.bindings && !HasLease(s, INADDR_BROADCAST)
    ensures OnReceivedRequest(cfg, s, m, clk).1 == Ack(s.bindings[MacAddrHash(m.chaddr)].ip)
  {
    hide MacAddrHash, Htonl;
    BroadcastSwapped();
    BelowBroadcast(cfg.begin);
  }

  lemma BelowBroadcast(ip: u32)
    ensures Htonl(ip) <= INADDR_BROADCAST
  {
    hide Htonl;
  }

  lemma BroadcastSwapped()
    ensures Htonl(INADDR_BROADCAST) == INADDR_BROADCAST
  {
    OctetsOfJoin(255, 255, 255, 255);
  }

  ghost predicate ReplyOk(cfg: Config, s: Pool, m: Message, reply: Reply) {
    match reply
    case Offer(yiaddr) => m.kind.Discover? && yiaddr != 0 && InPool(cfg, yiaddr)
                          && OneLeaseAfterOffer(s, m.chaddr, yiaddr)
    case Ack(yiaddr) => m.kind.Request? && AckOk(cfg, m, yiaddr)
    case _ => true
  }

  lemma StepKeepsTables(cfg: Config, s: Pool, m: Message, clk: Clock)
    requires TablesOk(cfg, s)
    ensures var (s', reply) := Step(cfg, s, m, clk);
            TablesOk(cfg, s') && ReplyOk(cfg, s', m, reply)
  {
    hide OnReceivedDiscover, OnReceivedRequest, MacAddrHash, IpInRange, HostInRange, IsEmptyHWAddr, OneLeaseAfterOffer;
    match m.kind
    case Discover => DiscoverKeepsTables(cfg, s, m, clk);
    case Request => RequestKeepsTables(cfg, s, m, clk);
    case Decline =>
    case Release =>
  }

  /** With a mask /24 or longer the two comparisons agree, so "in the pool" has its plain meaning. */
  lemma PoolMeaning(cfg: Config, ip: u32, p: nat)
    requires 24 <= p <= 32 && cfg.netmask == Mask(p)
    requires NetworkAddress(cfg.begin, cfg.netmask) == NetworkAddress(cfg.end, cfg.netmask)
    ensures InPool(cfg, ip) <==> HostInRange(ip, cfg.begin, cfg.end)
    ensures InPool(cfg, ip) <==> InRange(cfg, ip)
  {
    hide Htonl, Mask, NetworkAddress, LowBits;
    if HostInRange(ip, cfg.begin, cfg.end) {
      SameNetworkIff(cfg.begin, cfg.end, p);
      assert Htonl(ip) == NetPart(cfg.begin, p) + (Htonl(ip) - NetPart(cfg.begin, p));
      PartsOfHost(ip, NetPart(cfg.begin, p), Htonl(ip) - NetPart(cfg.begin, p), p, cfg.begin);
      SameNetworkIff(ip, cfg.begin, p);
    }
    if NetworkAddress(ip, cfg.netmask) == NetworkAddress(cfg.begin, cfg.netmask) {
      RangeOrdersAgree(ip, cfg.begin, cfg.end, p);
    }
  }

  // ----- Loading the lease file -----

  /** The lease table read from a file: records in range, the last one winning. */
  function LoadLeases(cfg: Config, records: seq<Binding>): map<u32, Binding> {
    if records == [] then map[]
    else
      var earlier := LoadLeases(cfg, records[..|records| - 1]);
      var b := records[|records| - 1];
      if InRange(cfg, b.ip) then earlier[b.ip := b] else earlier
  }

  /** One lease turned back into a binding, unless its record is bad or the key is taken. */
  function Recover(s: Pool, b: Binding): Pool {
    var key := MacAddrHash(b.chaddr);
    if IsEmptyHWAddr(b.chaddr) || b.ip == 0 then s
    else s.(bindings := if key in s.bindings then s.bindings else s.bindings[key := b],
            distribution := if s.distribution < b.ip then b.ip else s.distribution)
  }

  /** Bindings and scan start recovered from the leases, visited in the given order. */
  function InitBindings(s: Pool, order: seq<u32>): (r: Pool)
    requires forall ip <- order :: ip in s.leases
    ensures r.leases == s.leases
    decreases |order|
  {
    if order == [] then s
    else Recover(InitBindings(s, order[..|order| - 1]), s.leases[order[|order| - 1]])
  }

  lemma {:induction false} LoadedLeasesOk(cfg: Config, records: seq<Binding>)
    ensures LeasesOk(cfg, LoadLeases(cfg, records)) && LeasesInRange(cfg, Pool(map[], LoadLeases(cfg, records), 0))
  {
    hide IpInRange, HostInRange;
    if records != [] {
      LoadedLeasesOk(cfg, records[..|records| - 1]);
    }
  }

  lemma {:induction false} InitBindingsOk(cfg: Config, s: Pool, order: seq<u32>)
    requires TablesOk(cfg, s) && LeasesInRange(cfg, s) && forall ip <- order :: ip in s.leases
    ensures TablesOk(cfg, InitBindings(s, order)) && InitBindings(s, order).leases == s.leases
    decreases |order|
  {
    hide IpInRange, HostInRange, MacAddrHash;
    if order != [] {
      InitBindingsOk(cfg, s, order[..|order| - 1]);
    }
  }

  /** A server started from any lease file begins with sound tables, so every run of it is safe. */
  lemma {:induction false} StartIsSafe(cfg: Config, records: seq<Binding>, order: seq<u32>)
    requires forall ip <- order :: ip in LoadLeases(cfg, records)
    ensures TablesOk(cfg, InitBindings(Pool(map[], LoadLeases(cfg, records), 0), order))
  {
    LoadedLeasesOk(cfg, records);
    InitBindingsOk(cfg, Pool(map[], LoadLeases(cfg, records), 0), order);
  }
}
