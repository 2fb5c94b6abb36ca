/**
 Who owns which lease: whose lease an offer or an acknowledgement names, which messages end a
 live lease, and what that means for runs of messages.
 */
module LeaseOwnership {
  import opened Wrappers
  import opened Words
  import opened AddressUtils
  import opened AddressPool
  import opened ServerHandlers

  // ----- Whose lease an offer names -----

  lemma {:induction false} ScanKeepsOthers(cfg: Config, s: Pool, chaddr: Chaddr, ip: u32, left: nat, clk: Clock)
    ensures var (s', r) := Scan(cfg, s, chaddr, ip, left, clk);
            forall h <- s'.bindings :: h in s.bindings && s'.bindings[h] == s.bindings[h]
    decreases left
  {
    hide NextIpAddress, IpInRange, MacAddrHash, Free, IsEmptyHWAddr;
    if left > 0 {
      var next := NextIpAddress(ip, cfg.netmask, 0);
      var (s1, ok) := CheckIpAvailability(cfg, s, chaddr, next, clk);
      assert forall h <- s1.bindings :: h in s.bindings && s1.bindings[h] == s.bindings[h];
      if !(ok && InRange(cfg, next)) {
        ScanKeepsOthers(cfg, s1, chaddr, next, left - 1, Later(clk, 3));
      }
    }
  }

  /** A client without binding gets one under its own MAC. */
  lemma NewBindingIsOwn(cfg: Config, s: Pool, chaddr: Chaddr, clk: Clock)
    requires MacAddrHash(chaddr) !in s.bindings
    ensures var s1, key := GetBinding(cfg, s, chaddr, clk), MacAddrHash(chaddr);
            key in s1.bindings ==> s1.bindings[key].chaddr == chaddr
  {
    hide MacAddrHash, Scan, HostTotal;
    var key := MacAddrHash(chaddr);
    var b := NewBinding(chaddr, clk(0), clk(1));
    var b1 := if cfg.leaseTime != 0 then b.(leaseTime := cfg.leaseTime) else b;
    var s0 := s.(bindings := s.bindings[key := b1]);
    var s1 := if s0.distribution == 0 then s0.(distribution := cfg.begin) else s0;
    ScanKeepsOthers(cfg, s1, chaddr, ScanStart(cfg, s1), HostTotal(cfg.netmask), Later(clk, 2));
  }

  /** After a new binding is made, the lease of its address is its client's. */
  lemma NewLeaseIsOwn(cfg: Config, s: Pool, chaddr: Chaddr, clk: Clock)
    requires MacAddrHash(chaddr) !in s.bindings
    ensures var s1, key := GetBinding(cfg, s, chaddr, clk), MacAddrHash(chaddr);
            key in s1.bindings && s1.bindings[key].ip != 0 ==>
              s1.bindings[key].ip in s1.leases && SameMac(s1.leases[s1.bindings[key].ip], chaddr)
  {
    hide MacAddrHash, Scan, HostTotal;
    var key := MacAddrHash(chaddr);
    var b := NewBinding(chaddr, clk(0), clk(1));
    var b1 := if cfg.leaseTime != 0 then b.(leaseTime := cfg.leaseTime) else b;
    var s0 := s.(bindings := s.bindings[key := b1]);
    var s1 := if s0.distribution == 0 then s0.(distribution := cfg.begin) else s0;
    if CanDistribute(cfg, chaddr) {
      ScanLeaseIsOwn(cfg, s1, chaddr, ScanStart(cfg, s1), HostTotal(cfg.netmask), Later(clk, 2));
    }
  }

  lemma {:induction false} ScanLeaseIsOwn(cfg: Config, s: Pool, chaddr: Chaddr, ip: u32, left: nat, clk: Clock)
    requires !IsEmptyHWAddr(chaddr)
    ensures var (s', r) := Scan(cfg, s, chaddr, ip, left, clk);
            r != 0 ==> r in s'.leases && SameMac(s'.leases[r], chaddr)
    decreases left
  {
    hide NextIpAddress, IpInRange, MacAddrHash, Free;
    if left > 0 {
      var next := NextIpAddress(ip, cfg.netmask, 0);
      var (s1, ok) := CheckIpAvailability(cfg, s, chaddr, next, clk);
      var lease := DistributedLease(cfg, chaddr, next, clk(2));
      assert Mac(lease.chaddr) == Mac(chaddr);
      if !(ok && InRange(cfg, next)) {
        ScanLeaseIsOwn(cfg, s1, chaddr, next, left - 1, Later(clk, 3));
      }
    }
  }

  /** The address of the client's binding is leased to a MAC other than the binding's. */
  predicate BoundElsewhere(s: Pool, chaddr: Chaddr) {
    var key := MacAddrHash(chaddr);
    && key in s.bindings && s.bindings[key].ip != 0
    && s.bindings[key].ip in s.leases
    && Mac(s.leases[s.bindings[key].ip].chaddr) != Mac(s.bindings[key].chaddr)
  }

  /**
   An offer names an address that is leased to someone other than the client's binding if and
   only if that was so before: the client has a binding already, such as one that outlived a
   RELEASE, and its address was leased anew since. That lease is left as it is, live or not.
   */
  lemma ForeignOfferIff(cfg: Config, s: Pool, m: Message, clk: Clock)
    requires TablesOk(cfg, s) && OnReceivedDiscover(cfg, s, m, clk).1.Offer?
    ensures var (s', reply) := OnReceivedDiscover(cfg, s, m, clk);
            && MacAddrHash(m.chaddr) in s'.bindings && reply.yiaddr == s'.bindings[MacAddrHash(m.chaddr)].ip
            && reply.yiaddr in s'.leases
            && (BoundElsewhere(s', m.chaddr) <==> BoundElsewhere(s, m.chaddr))
            && (BoundElsewhere(s, m.chaddr) ==> s'.leases[reply.yiaddr] == s.leases[reply.yiaddr])
  {
    hide MacAddrHash, IpInRange, HostInRange, AddressDistribute, IsEmptyHWAddr;
    var key := MacAddrHash(m.chaddr);
    var s1 := GetBinding(cfg, s, m.chaddr, clk);
    GetBindingKeepsTables(cfg, s, m.chaddr, clk);
    if key !in s.bindings {
      NewBindingIsOwn(cfg, s, m.chaddr, clk);
      NewLeaseIsOwn(cfg, s, m.chaddr, clk);
    }
    hide GetBinding;
    var b := s1.bindings[key];
    var s2 := DeleteMacInLease(s1, Mac(b.chaddr));
    assert b.ip in s2.leases ==> Mac(s2.leases[b.ip].chaddr) != Mac(b.chaddr) && s2.leases[b.ip] == s1.leases[b.ip];
  }

  /** In such tables the client is offered that address, and the other client's lease stays. */
  lemma ForeignLeaseIsOffered(cfg: Config, s: Pool, m: Message, clk: Clock)
    requires TablesOk(cfg, s) && BoundElsewhere(s, m.chaddr) && !IsReserved(s, m.chaddr)
    requires m.kind.Discover? && !IsEmptyHWAddr(m.chaddr)
    ensures var b := s.bindings[MacAddrHash(m.chaddr)];
            Step(cfg, s, m, clk) == (DeleteMacInLease(s, Mac(b.chaddr)), Offer(b.ip)) &&
            DeleteMacInLease(s, Mac(b.chaddr)).leases[b.ip] == s.leases[b.ip]
  {
    hide MacAddrHash, IpInRange, HostInRange, IsEmptyHWAddr;
  }

  /** The client's key is that of a binding made for another MAC. */
  predicate SharesKey(s: Pool, chaddr: Chaddr) {
    var key := MacAddrHash(chaddr);
    key in s.bindings && Mac(s.bindings[key].chaddr) != Mac(chaddr)
  }

  /**
   The binding table cannot tell clients with one key apart: a client whose key is that of
   another client's binding is offered that binding's address.
   */
  lemma SharedKeySharesAddress(cfg: Config, s: Pool, m: Message, clk: Clock)
    requires TablesOk(cfg, s) && MacAddrHash(m.chaddr) in s.bindings
    requires var b := s.bindings[MacAddrHash(m.chaddr)];
             b.ip != 0 && !IsEmptyHWAddr(b.chaddr) && b.mode != BIND_MODE_RESERVED
    requires m.kind.Discover? && !IsEmptyHWAddr(m.chaddr)
    ensures Step(cfg, s, m, clk).1 == Offer(s.bindings[MacAddrHash(m.chaddr)].ip)
  {
    hide MacAddrHash, IsEmptyHWAddr, InPool, Mac;
  }

  /**
   The binding table cannot tell clients with one key apart: an offer is made from a binding of
   the client's own MAC if and only if there was none under its key before, or one of its own.
   */
  lemma OfferIsFromOwnBindingIff(cfg: Config, s: Pool, m: Message, clk: Clock)
    requires TablesOk(cfg, s) && OnReceivedDiscover(cfg, s, m, clk).1.Offer?
    ensures var (s', reply) := OnReceivedDiscover(cfg, s, m, clk);
            var key := MacAddrHash(m.chaddr);
            && key in s'.bindings && reply.yiaddr == s'.bindings[key].ip
            && (Mac(s'.bindings[key].chaddr) == Mac(m.chaddr) <==> !SharesKey(s, m.chaddr))
  {
    hide MacAddrHash, IpInRange, HostInRange, IsEmptyHWAddr, Mac;
    GetBindingKeepsTables(cfg, s, m.chaddr, clk);
    if MacAddrHash(m.chaddr) !in s.bindings {
      NewBindingIsOwn(cfg, s, m.chaddr, clk);
    }
    hide AddressDistribute;
  }

  // ----- Writing to an erased binding -----

  /**
   The handler goes on writing to a binding that was just erased if and only if the client had
   none and the search of the pool evicts an expired lease of another MAC under the client's key.
   */
  lemma FreedBindingIff(cfg: Config, s: Pool, m: Message, clk: Clock)
    requires LeasesInRange(cfg, s) && !IsEmptyHWAddr(m.chaddr)
    ensures var key, start := MacAddrHash(m.chaddr), ScanStart(cfg, s);
            OnReceivedDiscover(cfg, s, m, clk).1 == FreedBinding <==>
            && key !in s.bindings && CanDistribute(cfg, m.chaddr)
            && exists k: nat | FirstSuitable(cfg, s, m.chaddr, start, Later(clk, 2), k) ::
                 && k <= HostTotal(cfg.netmask)
                 && HasLease(s, Walk(start, cfg.netmask, k))
                 && Mac(s.leases[Walk(start, cfg.netmask, k)].chaddr) != Mac(m.chaddr)
                 && MacAddrHash(s.leases[Walk(start, cfg.netmask, k)].chaddr) == key
  {
    hide MacAddrHash, IpInRange, AddressDistribute, IsEmptyHWAddr, Mac, Free, HostTotal, Walk, DeleteMacInLease;
    var key := MacAddrHash(m.chaddr);
    if key !in s.bindings && CanDistribute(cfg, m.chaddr) {
      var b := NewBinding(m.chaddr, clk(0), clk(1));
      var b1 := if cfg.leaseTime != 0 then b.(leaseTime := cfg.leaseTime) else b;
      SearchErasesIff(cfg, s, m.chaddr, s.(bindings := s.bindings[key := b1]), Later(clk, 2));
    } else if key !in s.bindings {
      var b := NewBinding(m.chaddr, clk(0), clk(1));
      var b1 := if cfg.leaseTime != 0 then b.(leaseTime := cfg.leaseTime) else b;
      NoSearch(cfg, s.(bindings := s.bindings[key := b1]), m.chaddr, Later(clk, 2));
    }
  }

  lemma NoSearch(cfg: Config, s: Pool, chaddr: Chaddr, clk: Clock)
    requires !CanDistribute(cfg, chaddr)
    ensures AddressDistribute(cfg, s, chaddr, clk) == (s, 0)
  {
  }

  /** The search erases the binding just made exactly if the first suitable address is held under its key. */
  lemma SearchErasesIff(cfg: Config, s: Pool, chaddr: Chaddr, s0: Pool, clk: Clock)
    requires LeasesInRange(cfg, s) && CanDistribute(cfg, chaddr)
    requires s0.leases == s.leases && s0.distribution == s.distribution
    requires MacAddrHash(chaddr) in s0.bindings && s0.bindings[MacAddrHash(chaddr)].mode == BIND_MODE_DYNAMIC
    ensures var key, start := MacAddrHash(chaddr), ScanStart(cfg, s);
            key !in AddressDistribute(cfg, s0, chaddr, clk).0.bindings <==>
            exists k: nat | FirstSuitable(cfg, s, chaddr, start, clk, k) ::
              && k <= HostTotal(cfg.netmask)
              && HasLease(s, Walk(start, cfg.netmask, k))
              && Mac(s.leases[Walk(start, cfg.netmask, k)].chaddr) != Mac(chaddr)
              && MacAddrHash(s.leases[Walk(start, cfg.netmask, k)].chaddr) == key
  {
    hide MacAddrHash, IpInRange, AddressDistribute, IsEmptyHWAddr, Mac, Free, HostTotal, Walk;
    var start := ScanStart(cfg, s);
    FreeIgnoresStart(cfg, s, s0, chaddr);
    DistributeFindsFirst(cfg, s0, chaddr, clk);
    forall k: nat
      ensures FirstSuitable(cfg, s0, chaddr, start, clk, k) == FirstSuitable(cfg, s, chaddr, start, clk, k)
    {
    }
    forall k: nat, j: nat | FirstSuitable(cfg, s, chaddr, start, clk, k) && FirstSuitable(cfg, s, chaddr, start, clk, j)
      ensures k == j
    {
    }
    forall k: nat | FirstSuitable(cfg, s, chaddr, start, clk, k) && k <= HostTotal(cfg.netmask)
      ensures AddressDistribute(cfg, s0, chaddr, clk).1 != 0
    {
      assert Suits(cfg, s0, chaddr, Walk(start, cfg.netmask, k), clk(3 * (k - 1)));
    }
  }

  // ----- Whose lease is acknowledged -----

  /**
   Before a REQUEST that is acknowledged: the lease of that address is the client's, or becomes
   so. A client with a binding takes over an expired lease if the second look, at the expiry
   field alone, finds it expired too; a client without one only replaces an associated lease.
   */
  predicate OwnsOnAck(cfg: Config, s: Pool, m: Message, clk: Clock) {
    var key := MacAddrHash(m.chaddr);
    if key in s.bindings then
      var b := s.bindings[key];
      && b.ip in s.leases
      && (|| SameMac(s.leases[b.ip], m.chaddr)
          || (&& GetYourIpAddress(cfg, m, INADDR_BROADCAST).0 == b.ip
              && clk(3) > s.leases[b.ip].expireIn && SameMac(b, m.chaddr)))
    else
      var yourIp := GetYourIpAddress(cfg, m, 0).0;
      && yourIp in s.leases
      && (|| SameMac(s.leases[yourIp], m.chaddr)
          || (s.leases[yourIp].status == BIND_ASSOCIATED && !IsEmptyHWAddr(s.leases[yourIp].chaddr)))
  }

  lemma AckWithoutBinding(cfg: Config, s: Pool, m: Message, clk: Clock)
    requires TablesOk(cfg, s) && !IsEmptyHWAddr(m.chaddr) && MacAddrHash(m.chaddr) !in s.bindings
    requires NotBindingRequest(cfg, s, m, clk).1.Ack? && NotBindingRequest(cfg, s, m, clk).1.yiaddr != 0
    ensures var (s', reply) := NotBindingRequest(cfg, s, m, clk);
            reply.yiaddr in s'.leases && (SameMac(s'.leases[reply.yiaddr], m.chaddr) <==> OwnsOnAck(cfg, s, m, clk))
  {
    hide MacAddrHash, IpInRange, HostInRange, IsEmptyHWAddr, Mac, ExpiryOf, GetYourIpAddress;
  }

  /** The lease of an acknowledged address is the client's if and only if `OwnsOnAck` held before. */
  lemma AckedLeaseIsOwnIff(cfg: Config, s: Pool, m: Message, clk: Clock)
    requires TablesOk(cfg, s) && !IsEmptyHWAddr(m.chaddr)
    requires OnReceivedRequest(cfg, s, m, clk).1.Ack? && OnReceivedRequest(cfg, s, m, clk).1.yiaddr != 0
    ensures var (s', reply) := OnReceivedRequest(cfg, s, m, clk);
            reply.yiaddr in s'.leases && SameMac(s'.leases[reply.yiaddr], m.chaddr) <==> OwnsOnAck(cfg, s, m, clk)
  {
    hide MacAddrHash, IpInRange, HostInRange, IsEmptyHWAddr, GetYourIpAddress, NotBindingRequest, IpInNetwork,
      Repending, ExpiryOf;
    var key := MacAddrHash(m.chaddr);
    if key !in s.bindings {
      AckWithoutBinding(cfg, s, m, clk);
    } else {
      var b := s.bindings[key];
      RebindingKeeps(cfg, b, clk(0), clk(1));
      var yourIp := GetYourIpAddress(cfg, m, INADDR_BROADCAST).0;
      if yourIp == b.ip && b.ip in s.leases && !SameMac(s.leases[b.ip], m.chaddr) {
        SecondLook(s.leases[b.ip], Rebinding(cfg, b, clk(0), clk(1)), m, clk);
      }
    }
  }

  lemma RebindingKeeps(cfg: Config, b: Binding, now: u64, tBind: u64)
    ensures Rebinding(cfg, b, now, tBind).ip == b.ip && Rebinding(cfg, b, now, tBind).chaddr == b.chaddr
  {
  }

  /** On a lease that the first look found expired, the second look goes by the expiry field. */
  lemma SecondLook(lease: Binding, b: Binding, m: Message, clk: Clock)
    requires !SameMac(lease, m.chaddr)
    ensures ExpiredAt(lease, clk(2)) ==>
              Mac(RequestedLease(lease, b, m, clk).chaddr) ==
              if clk(3) > lease.expireIn then Mac(b.chaddr) else Mac(lease.chaddr)
  {
    assert (Mac(b.chaddr) + lease.chaddr[6..])[..6] == Mac(b.chaddr);
  }

  /**
   So a lease shorter than the default, which a new binding dates all the same, keeps its first
   owner when another client is acknowledged its address, and counts as associated from then on.
   */
  lemma AckedLeaseKeepsOwner(cfg: Config, s: Pool, m: Message, clk: Clock)
    requires TablesOk(cfg, s) && MacAddrHash(m.chaddr) in s.bindings
    requires GetYourIpAddress(cfg, m, INADDR_BROADCAST) == (s.bindings[MacAddrHash(m.chaddr)].ip, true)
    requires m.serverId == None || m.serverId == Some(cfg.serverId)
    requires var ip := s.bindings[MacAddrHash(m.chaddr)].ip;
             && HasLease(s, ip) && !SameMac(s.leases[ip], m.chaddr)
             && ExpiredAt(s.leases[ip], clk(2)) && clk(3) <= s.leases[ip].expireIn
    ensures var (s', reply) := OnReceivedRequest(cfg, s, m, clk);
            var ip := s.bindings[MacAddrHash(m.chaddr)].ip;
            && reply == Ack(ip) && ip in s'.leases
            && Mac(s'.leases[ip].chaddr) == Mac(s.leases[ip].chaddr) && s'.leases[ip].status == BIND_ASSOCIATED
  {
    hide MacAddrHash, IpInRange, HostInRange, IsEmptyHWAddr, GetYourIpAddress, Repending, ExpiryOf;
    var b := s.bindings[MacAddrHash(m.chaddr)];
    SecondLook(s.leases[b.ip], Rebinding(cfg, b, clk(0), clk(1)), m, clk);
    RebindingKeeps(cfg, b, clk(0), clk(1));
    assert ValidateRequestMessage(cfg, s, m) == Accepted(b.ip);
    hide Rebinding, Mac;
    var (s', reply) := OnReceivedRequest(cfg, s, m, clk);
    assert reply == Ack(b.ip);
    assert s'.leases[b.ip] == RequestedLease(s.leases[b.ip], Rebinding(cfg, b, clk(0), clk(1)), m, clk);
  }

  // ----- Which messages end a live lease -----

  /** The MAC that held an address does not hold it any more. */
  predicate Lost(before: map<u32, Binding>, after: map<u32, Binding>, ip: u32)
    requires ip in before
  {
    ip in after ==> Mac(after[ip].chaddr) != Mac(before[ip].chaddr)
  }

  /**
   The messages that drop a lease without asking whose it is: a DISCOVER under the key of a
   binding made for its owner, a RELEASE under the key of a binding of its address, and a refused
   REQUEST for an address outside the range.
   */
  predicate DroppedBy(cfg: Config, s: Pool, m: Message, ip: u32)
    requires ip in s.leases
  {
    var key, lease := MacAddrHash(m.chaddr), s.leases[ip];
    && !IsEmptyHWAddr(m.chaddr) && !IsReserved(s, m.chaddr)
    && match m.kind
       case Discover =>
         && key in s.bindings && s.bindings[key].ip != 0 && SameMac(lease, s.bindings[key].chaddr)
         && (ip != s.bindings[key].ip || IsEmptyHWAddr(lease.chaddr))
       case Request =>
         var (yourIp, ok) := GetYourIpAddress(cfg, m, INADDR_BROADCAST);
         !ok && ip == yourIp && ip != 0 && ip != INADDR_BROADCAST && !IsEmptyHWAddr(lease.chaddr)
       case Decline => false
       case Release =>
         && key in s.bindings && s.bindings[key].ip == ip && ip != 0
         && (RequestedIp(m) == 0 || RequestedIp(m) == ip) && !IsEmptyHWAddr(lease.chaddr)
  }

  /** Of the leases of others that were live throughout, a message ends exactly those it drops. */
  ghost predicate EndsOnlyDropped(cfg: Config, s: Pool, m: Message, after: map<u32, Binding>, clk: Clock) {
    forall ip <- s.leases | Mac(s.leases[ip].chaddr) != Mac(m.chaddr)
                            && !ExpiredDuring(s.leases[ip], clk, Readings(cfg, m.kind)) ::
      Lost(s.leases, after, ip) <==> DroppedBy(cfg, s, m, ip)
  }

  lemma DiscoverEnds(cfg: Config, s: Pool, m: Message, clk: Clock)
    requires TablesOk(cfg, s) && m.kind.Discover? && !IsEmptyHWAddr(m.chaddr) && !IsReserved(s, m.chaddr)
    ensures EndsOnlyDropped(cfg, s, m, OnReceivedDiscover(cfg, s, m, clk).0.leases, clk)
  {
    hide MacAddrHash, IpInRange, HostInRange, AddressDistribute, Mac, HostTotal, ExpiredDuring, IsReserved;
    var key := MacAddrHash(m.chaddr);
    if key !in s.bindings {
      GetBindingTakesOnlyExpired(cfg, s, m.chaddr, clk);
      NewBindingIsOwn(cfg, s, m.chaddr, clk);
    }
    var s1 := GetBinding(cfg, s, m.chaddr, clk);
    hide GetBinding;
    if key in s.bindings {
      assert s1 == s by { KnownBinding(cfg, s, m.chaddr, clk); }
    }
  }

  lemma KnownBinding(cfg: Config, s: Pool, chaddr: Chaddr, clk: Clock)
    requires MacAddrHash(chaddr) in s.bindings
    ensures GetBinding(cfg, s, chaddr, clk) == s
  {
    hide MacAddrHash;
  }

  lemma NotBindingEnds(cfg: Config, s: Pool, m: Message, clk: Clock, ip: u32)
    requires TablesOk(cfg, s) && ip in s.leases && Mac(s.leases[ip].chaddr) != Mac(m.chaddr)
    requires !ExpiredDuring(s.leases[ip], clk, 5)
    ensures !Lost(s.leases, NotBindingRequest(cfg, s, m, clk).0.leases, ip)
  {
    hide MacAddrHash, Mac, IpInRange, HostInRange, IsEmptyHWAddr, GetYourIpAddress, ExpiryOf;
    assert !ExpiredAt(s.leases[ip], clk(0));
  }

  lemma RequestEnds(cfg: Config, s: Pool, m: Message, clk: Clock)
    requires TablesOk(cfg, s) && m.kind.Request? && !IsEmptyHWAddr(m.chaddr) && !IsReserved(s, m.chaddr)
    ensures EndsOnlyDropped(cfg, s, m, OnReceivedRequest(cfg, s, m, clk).0.leases, clk)
  {
    hide MacAddrHash, IpInRange, HostInRange, GetYourIpAddress, NotBindingRequest, IpInNetwork, Repending, ExpiryOf,
      IsReserved, IsEmptyHWAddr, RequestedLease;
    var after := OnReceivedRequest(cfg, s, m, clk).0.leases;
    forall ip | ip in s.leases && Mac(s.leases[ip].chaddr) != Mac(m.chaddr)
                && !ExpiredDuring(s.leases[ip], clk, Readings(cfg, m.kind))
      ensures Lost(s.leases, after, ip) <==> DroppedBy(cfg, s, m, ip)
    {
      NotBindingEnds(cfg, s, m, clk, ip);
      var key := MacAddrHash(m.chaddr);
      if key in s.bindings {
        LiveKeepsOwner(s.leases[ip], Rebinding(cfg, s.bindings[key], clk(0), clk(1)), m, clk);
      }
    }
  }

  lemma LiveKeepsOwner(lease: Binding, b: Binding, m: Message, clk: Clock)
    requires !ExpiredDuring(lease, clk, 5)
    ensures Mac(RequestedLease(lease, b, m, clk).chaddr) == Mac(lease.chaddr)
  {
    assert !ExpiredAt(lease, clk(2)) && !ExpiredAt(lease, clk(3));
  }

  /**
   One message, from sound tables: a live lease of another MAC than the sender's is lost if and
   only if the message is one that drops it.
   */
  lemma LiveLeaseLostIff(cfg: Config, s: Pool, m: Message, clk: Clock)
    requires TablesOk(cfg, s)
    ensures EndsOnlyDropped(cfg, s, m, Step(cfg, s, m, clk).0.leases, clk)
  {
    hide OnReceivedDiscover, OnReceivedRequest, MacAddrHash, IpInRange, HostInRange, ExpiredDuring, IsReserved,
      IsEmptyHWAddr, GetYourIpAddress;
    if !IsEmptyHWAddr(m.chaddr) && !IsReserved(s, m.chaddr) {
      match m.kind
      case Discover => DiscoverEnds(cfg, s, m, clk);
      case Request => RequestEnds(cfg, s, m, clk);
      case Decline =>
      case Release =>
    }
  }

  /**
   With a mask /24 or longer that comes down to two cases: a RELEASE from a client whose binding's
   address was leased anew, or that shares its key, and a DISCOVER from one that shares its key.
   */
  lemma DroppedOnlyBy(cfg: Config, s: Pool, m: Message, ip: u32, p: nat)
    requires TablesOk(cfg, s) && 24 <= p <= 32 && cfg.netmask == Mask(p)
    requires NetworkAddress(cfg.begin, cfg.netmask) == NetworkAddress(cfg.end, cfg.netmask)
    requires ip in s.leases && Mac(s.leases[ip].chaddr) != Mac(m.chaddr) && DroppedBy(cfg, s, m, ip)
    ensures || (m.kind.Release? && (BoundElsewhere(s, m.chaddr) || SharesKey(s, m.chaddr)))
            || (m.kind.Discover? && SharesKey(s, m.chaddr))
  {
    hide MacAddrHash, IpInRange, HostInRange, IsReserved, IsEmptyHWAddr, Mask, Mac, NetworkAddress;
    PoolMeaning(cfg, ip, p);
  }

  // ----- Runs -----

  datatype Input = Input(message: Message, clk: Clock)

  /** The tables before each message of a run, and after the last. */
  function Tables(cfg: Config, s: Pool, run: seq<Input>): (r: seq<Pool>)
    ensures |r| == |run| + 1 && r[0] == s
    decreases |run|
  {
    if run == [] then [s]
    else [s] + Tables(cfg, Step(cfg, s, run[0].message, run[0].clk).0, run[1..])
  }

  /**
   Over every run: tables stay sound, no filed lease changes hands while live, a live lease of
   another MAC ends only by a message that drops it, and each reply is in order.
   */
  lemma {:induction false} RunIsSafe(cfg: Config, s: Pool, run: seq<Input>, i: nat)
    requires TablesOk(cfg, s) && i < |run|
    ensures var t := Tables(cfg, s, run);
            var (next, reply) := Step(cfg, t[i], run[i].message, run[i].clk);
            && t[i + 1] == next
            && TablesOk(cfg, t[i]) && TablesOk(cfg, t[i + 1])
            && NoLiveLeaseTaken(t[i].leases, t[i + 1].leases, run[i].clk, Readings(cfg, run[i].message.kind))
            && EndsOnlyDropped(cfg, t[i], run[i].message, next.leases, run[i].clk)
            && ReplyOk(cfg, next, run[i].message, reply)
    decreases |run|
  {
    hide Step, TablesOk, ReplyOk, NoLiveLeaseTaken, Readings, EndsOnlyDropped;
    StepKeepsTables(cfg, s, run[0].message, run[0].clk);
    StepTakesNoLiveLease(cfg, s, run[0].message, run[0].clk);
    LiveLeaseLostIff(cfg, s, run[0].message, run[0].clk);
    if i > 0 {
      RunIsSafe(cfg, Step(cfg, s, run[0].message, run[0].clk).0, run[1..], i - 1);
    }
  }

  /** Why the holder of an address does not hold it any more: it ran out, it said so itself, or a message dropped it. */
  predicate LossExplained(cfg: Config, s: Pool, i: Input, after: map<u32, Binding>, ip: u32)
    requires ip in s.leases
  {
    || ExpiredDuring(s.leases[ip], i.clk, Readings(cfg, i.message.kind))
    || (ip !in after && (SameMac(s.leases[ip], i.message.chaddr) || DroppedBy(cfg, s, i.message, ip)))
  }

  lemma StepLossExplained(cfg: Config, s: Pool, i: Input, ip: u32)
    requires TablesOk(cfg, s) && ip in s.leases && Lost(s.leases, Step(cfg, s, i.message, i.clk).0.leases, ip)
    ensures LossExplained(cfg, s, i, Step(cfg, s, i.message, i.clk).0.leases, ip)
  {
    hide Step, TablesOk, DroppedBy, ExpiredDuring, Readings, Mac;
    StepTakesNoLiveLease(cfg, s, i.message, i.clk);
    LiveLeaseLostIff(cfg, s, i.message, i.clk);
  }

  /**
   A MAC that holds an address at the start of a run, and at its end does not, held it up to some
   message at which its lease had run out, which it sent itself, or which dropped the lease; and if
   the address then went straight to another MAC, the lease had run out.
   */
  lemma OwnerLosesLeaseOnlyBy(cfg: Config, s: Pool, run: seq<Input>, ip: u32) returns (i: nat)
    requires TablesOk(cfg, s) && ip in s.leases
    requires Lost(s.leases, Tables(cfg, s, run)[|run|].leases, ip)
    ensures i < |run|
    ensures var t := Tables(cfg, s, run);
            && ip in t[i].leases && Mac(t[i].leases[ip].chaddr) == Mac(s.leases[ip].chaddr)
            && Lost(t[i].leases, t[i + 1].leases, ip)
            && LossExplained(cfg, t[i], run[i], t[i + 1].leases, ip)
    decreases |run|
  {
    hide Step, TablesOk, LossExplained, Mac;
    var t := Tables(cfg, s, run);
    if run != [] {
      var s1 := Step(cfg, s, run[0].message, run[0].clk).0;
      assert t[1..] == Tables(cfg, s1, run[1..]) && t[1] == s1;
      if Lost(s.leases, s1.leases, ip) {
        StepLossExplained(cfg, s, run[0], ip);
        i := 0;
      } else {
        StepKeepsTables(cfg, s, run[0].message, run[0].clk);
        i := OwnerLosesLeaseOnlyBy(cfg, s1, run[1..], ip);
        i := i + 1;
      }
    }
  }
}
