# Verified model of the DHCP service

The repository is a DHCPv4 client, a DHCPv4 server and the bookkeeping of IPv6 autoconfiguration. This project models
their logic in Dafny and proves what it keeps. Verify it with `dafny verify dfyconfig.toml`.

Each part has a specification on values (functions from a state and an input to the next state) about which the
theorems are proved. Code that works in place has, beside it, a class or an array method whose loops and assignments
follow the source and whose postcondition equates the new state with the specification.

| files | part |
|---|---|
| `ClientMachine`, `ClientRuns`, `ClientTiming`, `ClientProgress`, `DhcpClient` | the client's IPv4 state machine (section 4.4 of RFC 2131): steps with a log of messages, probes and publications; what every run publishes, how often it retries, which timers it owns, how it waits and settles; the machine as an object |
| `TaskLifecycle` | the IPv4 task under every interleaving of threads, each atomic load and store a step |
| `AddressUtils`, `AddressPool`, `ServerHandlers`, `LeaseOwnership`, `StaleBindings`, `DhcpServer` | subnet arithmetic, the address pool with its two tables, the message handlers (section 4.3 of RFC 2131), who owns which lease over runs, the runs that hand a live lease over, the server as an object |
| `OptionCodec`, `OptionList` | client writer and reader of options with overload, the server's walk over the same octets, its linked list |
| `LeaseText`, `LeaseRecord`, `Text` | records of the lease file, written and parsed |
| `CacheText`, `ResultCache`, `ResultStore` | the result cache on disk and in memory |
| `DnsRepository`, `Ipv6Info`, `Ipv6Manager` | DNS servers from router advertisements (RFC 8106), IPv6 addresses, routes and lifetimes |
| `Checksum` | the Internet checksum (RFC 1071) of sender and receiver |
| `Words`, `Wrappers` | 32-bit words and their bitwise operators; the option type |

## Conventions

- IPv4 addresses are the 32-bit numbers a little-endian host reads from network order, as in the source. `Htonl` swaps
  them, and comparisons of the source are made on the same side as there.
- A clock is a parameter: `clk(k)` is reading number k of an operation. Where an operation reads the clock twice the
  readings may differ.
- Packets, probe results, sockets, timers firing, and whether the system calls of a step succeed are inputs.
- `long` has 64 bits and `int` has 32.

## Where the code departs from what one expects

Each of these is a lemma that gives the exact condition, or an input that shows it.

- A stop that read RUNNING can store STOP_REQUESTED after the task has ended, and then no task ever starts again
  (`TaskLifecycle.WedgedExactlyByStaleStop`, `WedgedForever`, `WedgeIsReachable`).
- Entering BOUND arms the lease timers except at the third address conflict of a task
  (`ClientTiming.BoundIsArmedIff`, `ThirdConflictArmsNothing`).
- A lease that has run out when its timers are armed is granted whole again, and a cached address always is
  (`ClientTiming.ExpiryFallsDue`, `CachedLeaseStartsOver`).
- Bindings are found by a hash of the hardware address alone, so two clients can share one
  (`AddressPool.MacHashCollides`, `LeaseOwnership.SharedKeySharesAddress`, `OfferIsFromOwnBindingIff`).
- A binding outlives a RELEASE, so a client can be offered an address whose live lease is another client's by now
  (`LeaseOwnership.ForeignOfferIff`, `StaleBindings.StaleBindingIsOffered`).
- A RELEASE drops the lease of the binding's address without asking whose it is, so a second RELEASE can end another
  client's live lease, and the address can go to a third client at once (`LeaseOwnership.LiveLeaseLostIff`,
  `StaleBindings.LiveLeaseIsHandedOver`).
- A new binding is dated with the default lease in its expiry field, so past the end of a shorter lease its address is
  acknowledged to another client while the lease keeps its owner (`LeaseOwnership.AckedLeaseKeepsOwner`).
- A search of the pool can erase the binding it is made for, which the handler then writes to
  (`LeaseOwnership.FreedBindingIff`).
- The test that keeps the server's own address and the gateway out of distribution is made on leased addresses only
  (`AddressPool.OwnAddressGivenIff`).
- In a pool that ends at 255.255.255.255, a request for that address is acknowledged the address of the binding
  (`ServerHandlers.BroadcastRequestIsAcked`).
- Pool membership compares addresses in network byte order, which is host byte order from /24 on and not below
  (`AddressUtils.RangeOrdersAgree`, `RangeOrdersDisagree`).
- The client's reader steps over an overload option by the length of the first option of the area, and misses options
  behind it unless that is 1 (`OptionCodec.OverloadIsReadIff`).
- Overload value 2, which section 9.3 of RFC 2132 gives to the server name field, makes the client's reader look
  nowhere (`OptionCodec.OverloadLeadsToFile`).
- Saving the result cache empties the memory, so two saves without a lookup between them lose all other records
  (`ResultCache.SecondSaveForgets`); the end of a lease passes through an `int`, so an infinite lease is lost
  (`ResultCache.InfiniteLeaseIsForgotten`).
- The lease file keeps only the first word of a device name and adds a newline to it
  (`LeaseRecord.NameSurvivesIff`, `LoadedLineIsRead`), and the expiry of associated records alone
  (`LeaseRecord.OtherVerdictKeptIff`); an associated record without binding time and from the future
  wraps around (`LeaseRecord.FutureRecordRevived`).
- An IPv6 address of exactly 128 octets enters the table but not its field (`Ipv6Info.LongAddressBreaksAgreement`);
  removing an unknown route reports a change when another one is left (`Ipv6Info.RemovalReportsNothing`).
- Over an odd length the checksum takes in an octet of the stack (`Checksum.SenderAndReceiverAgree`).

## Model

| member | source | states |
|---|---|---|
| `ClientRuns.PublicationsJustified` | services/dhcp_client/src/dhcp_client_state_machine.cpp:1228-1314 | in every run, a published success is the cached result just read, or what the last ACK carrying the current transaction id said, an INIT-REBOOT ACK without name servers being completed with those of the cached record read right after it; if that ACK came in REQUESTING or INIT-REBOOT, the result is published right after an unanswered fast probe of that very address, or at the third conflict of the task |
| `ClientRuns.RetriesBounded` | services/dhcp_client/src/dhcp_client_state_machine.cpp:662-751 | in every run at most two INIT-REBOOT requests and two DECLINEs per task, a resend delay in {0, 1, 2, 4, 6}, and send counters within the bound of their state |
| `ClientRuns.StepKeepsInv` | services/dhcp_client/src/dhcp_client_state_machine.cpp:301-342 | every input of the machine (timeout, packet, probe result, T1/T2/T3, start, stop, task entry and exit) keeps the invariant behind the two results above |
| `ClientRuns.RunKeepsInv` | services/dhcp_client/src/dhcp_client_state_machine.cpp:801-847 | the invariant holds after every sequence of inputs |
| `ClientRuns.DecliningKeepsInv` | services/dhcp_client/src/dhcp_client_state_machine.cpp:779-799 | declining keeps the invariant: up to the second conflict a DECLINE is sent, the third one publishes the address as it is |
| `ClientRuns.AckKeepsInv` | services/dhcp_client/src/dhcp_client_state_machine.cpp:1228-1287 | handling an ACK or NAK keeps the invariant in each of the states that accept one |
| `ClientTiming.RunKeepsTimers` | services/dhcp_client/src/dhcp_client_state_machine.cpp:2015-2122 | in every run the created and not destroyed timers are exactly the ids held by the slots, one per slot, none leaked or shared |
| `ClientTiming.LeaseTimesOrdered` | services/dhcp_client/src/dhcp_client_state_machine.cpp:1289-1314 | in every run T1 <= T2 <= lease time |
| `ClientTiming.ScheduleArms` | services/dhcp_client/src/dhcp_client_state_machine.cpp:2179-2228 | scheduling arms T1 at one half, T2 at seven eighths and the expiry at the whole of what remains (T1 alone, at nine tenths, on a specific network), in order and within the lease |
| `ClientTiming.ExpiryFallsDue` | services/dhcp_client/src/dhcp_client_state_machine.cpp:2179-2228 | the armed expiry falls due at the end of the lease if and only if the timers are armed between the time the lease was obtained and its end; outside, a whole lease is granted from now |
| `ClientTiming.CachedLeaseStartsOver` | services/dhcp_client/src/dhcp_client_state_machine.cpp:1930-1959 | whatever end of lease the cached record has, its whole lease is granted from now: the expiry falls due at that end exactly if the record says the lease was obtained just now, and late by the time since then otherwise |
| `ClientTiming.ThirdConflictArmsNothing` | services/dhcp_client/src/dhcp_client_state_machine.cpp:779-799 | a run of starts, packets and timeouts whose last timeout leads to BOUND with T1, T2 and the expiry all unarmed |
| `ClientTiming.ThirdConflictIsReached` | services/dhcp_client/src/dhcp_client_state_machine.cpp:779-799 | that run up to its third conflict: the task runs, two addresses were declined, and the client is in DECLINED |
| `ClientTiming.BoundIsArmedIff` | services/dhcp_client/src/dhcp_client_state_machine.cpp:2179-2228 | in every run, whatever input takes the client to BOUND arms its renewal and its expiry if and only if it was not in DECLINED before, and from DECLINED leaves every lease timer unarmed |
| `ClientTiming.StepArms` | services/dhcp_client/src/dhcp_client_state_machine.cpp:1797-1880 | the same for one input in any state that keeps the two invariants |
| `ClientProgress.TimeoutLowersRank` | services/dhcp_client/src/dhcp_client_state_machine.cpp:801-847 | without answers, each timeout in INIT-REBOOT, REQUESTING, FAST-ARP, SLOW-ARP or DECLINED lowers a rank or stops the task |
| `ClientProgress.SilenceSettles` | services/dhcp_client/src/dhcp_client_state_machine.cpp:801-847 | hence a client in one of those states that hears nothing is in INIT, in BOUND or stopped within as many timeouts as its rank |
| `ClientProgress.SeekingUntilSettled` | services/dhcp_client/src/dhcp_client_state_machine.cpp:801-847 | a timeout in one of those states leads to one of them, to INIT, to BOUND or stops the task |
| `ClientProgress.DiscoverBursts` | services/dhcp_client/src/dhcp_client_state_machine.cpp:569-598 | without offers and cache, k timeouts send k - k/17 DISCOVERs: bursts of sixteen, each followed by a pause of 60 s |
| `ClientProgress.VisitWaitsGrow` | services/dhcp_client/src/dhcp_client_state_machine.cpp:569-598 | in every run, within one visit to a state, the waits after the messages sent never shrink: each is twice the one before, up to 32 s |
| `ClientProgress.VisitWait` | services/dhcp_client/src/dhcp_client_state_machine.cpp:720-777 | packet number n, counted through the visit, is sent on a timeout and followed by a wait of 2^min(n, 5) s |
| `ClientProgress.StepWaits` | services/dhcp_client/src/dhcp_client_state_machine.cpp:301-342 | every input that stays in a visit either sends and waits by the packets sent so far, or counts nothing |
| `DhcpClient.StateMachine.constructor` | services/dhcp_client/src/dhcp_client_state_machine.cpp:58-99 | a new machine satisfies the invariants of runs and of timers |
| `DhcpClient.StateMachine.Handle` | services/dhcp_client/src/dhcp_client_state_machine.cpp:301-342 | one input takes the object to the state the step function gives and keeps both invariants |
| `DhcpClient.StateMachine.DhcpRequestHandle` | services/dhcp_client/src/dhcp_client_state_machine.cpp:801-847 | the timeout dispatch over the twelve states |
| `DhcpClient.StateMachine.InitSelecting` | services/dhcp_client/src/dhcp_client_state_machine.cpp:569-598 | DISCOVER, its retry count and wait, the cached address tried at the threshold, the pause after the last try |
| `DhcpClient.StateMachine.SendReboot` | services/dhcp_client/src/dhcp_client_state_machine.cpp:662-718 | a request for the remembered address, at most twice, then back to INIT |
| `DhcpClient.StateMachine.RequestingOrRenewed` | services/dhcp_client/src/dhcp_client_state_machine.cpp:720-751 | REQUEST with doubled waits, and the fall back to INIT |
| `DhcpClient.StateMachine.RenewingOrRebinding` | services/dhcp_client/src/dhcp_client_state_machine.cpp:753-777 | the unicast and broadcast renewal requests |
| `DhcpClient.StateMachine.Declining` | services/dhcp_client/src/dhcp_client_state_machine.cpp:779-799 | DECLINE and a new start, or the third conflict |
| `DhcpClient.StateMachine.DhcpResponseHandle` | services/dhcp_client/src/dhcp_client_state_machine.cpp:1383-1449 | the checks on a received packet and the dispatch by state and type |
| `DhcpClient.StateMachine.DhcpOfferPacketHandle` | services/dhcp_client/src/dhcp_client_state_machine.cpp:848-890 | an offer that names its server takes the client to REQUESTING with its transaction, address and server; any other packet changes nothing |
| `DhcpClient.StateMachine.DhcpAckOrNakPacketHandle` | services/dhcp_client/src/dhcp_client_state_machine.cpp:1228-1287 | what an ACK or NAK does in each state that listens for one |
| `DhcpClient.StateMachine.AfterAck` | services/dhcp_client/src/dhcp_client_state_machine.cpp:1249-1287 | the rest of the handler from the parsing of an ACK on, with each of its returns |
| `DhcpClient.StateMachine.ParseDhcpAckPacket` | services/dhcp_client/src/dhcp_client_state_machine.cpp:1289-1314 | the lease, T1 and T2 an ACK gives, with the default lease |
| `DhcpClient.StateMachine.ParseDhcpNakPacket` | services/dhcp_client/src/dhcp_client_state_machine.cpp:1316-1341 | the back-off after a NAK |
| `DhcpClient.StateMachine.FastArpDetect` | services/dhcp_client/src/dhcp_client_state_machine.cpp:1778-1795 | publish after an unanswered fast probe, decline after an answered one |
| `DhcpClient.StateMachine.SlowArpDetect` | services/dhcp_client/src/dhcp_client_state_machine.cpp:1844-1880 | the slow probes and the timeout that ends them |
| `DhcpClient.StateMachine.SlowArpDetectCallback` | services/dhcp_client/src/dhcp_client_state_machine.cpp:1797-1823 | an answered slow probe declines, an unanswered one binds |
| `DhcpClient.StateMachine.SlowArpTimeoutCallback` | services/dhcp_client/src/dhcp_client_state_machine.cpp:1825-1842 | a slow probe that times out binds |
| `DhcpClient.StateMachine.EnterBound` | services/dhcp_client/src/dhcp_client_state_machine.cpp:1797-1842 | the state, the waits and the lease timers of BOUND |
| `DhcpClient.StateMachine.TryCachedIp` | services/dhcp_client/src/dhcp_client_state_machine.cpp:1930-1959 | a cached result is published, its times restored and its timers armed |
| `DhcpClient.StateMachine.ScheduleLeaseTimers` | services/dhcp_client/src/dhcp_client_state_machine.cpp:2179-2228 | old lease timers closed, new ones armed from the remaining lease |
| `DhcpClient.StateMachine.StopIpv4` | services/dhcp_client/src/dhcp_client_state_machine.cpp:352-368 | the running task is asked to stop, its get-ip timer closed |
| `DhcpClient.StateMachine.StartIpv4Type` | services/dhcp_client/src/dhcp_client_state_machine.cpp:132-166 | the second half of a start, after a running task was asked to stop: the get-ip timer, the configuration and a task posted for a new or old start |
| `DhcpClient.StateMachine.InitStartIpv4Thread` | services/dhcp_client/src/dhcp_client_state_machine.cpp:169-193 | a task is posted only from the idle state |
| `DhcpClient.StateMachine.StartIpv4` | services/dhcp_client/src/dhcp_client_state_machine.cpp:274-299 | a posted task resets the machine, opens its sockets and enters its loop |
| `DhcpClient.StateMachine.RenewOrRebindDelayCallback` | services/dhcp_client/src/dhcp_client_state_machine.cpp:2124-2153 | T1 and T2 restart the task with their action |
| `DhcpClient.StateMachine.RemainingDelayCallback` | services/dhcp_client/src/dhcp_client_state_machine.cpp:2155-2166 | the end of the lease publishes the expiry |
| `DhcpClient.StateMachine.GetIpTimerCallback` | services/dhcp_client/src/dhcp_client_state_machine.cpp:1983-2013 | the get-ip timeout publishes the failure and stops the task |
| `TaskLifecycle.RunsKeepOneTask` | services/dhcp_client/src/dhcp_client_state_machine.cpp:132-193 | under every interleaving of starts, stops, timer callbacks and task exits, each load and store a step of its own, at most one task is posted or running, and an idle state means none is |
| `TaskLifecycle.WedgedExactlyByStaleStop` | services/dhcp_client/src/dhcp_client_state_machine.cpp:352-368 | the state becomes STOP_REQUESTED with nobody left to reset it exactly by the late store of a stop that read RUNNING before the task ended |
| `TaskLifecycle.WedgedForever` | services/dhcp_client/src/dhcp_client_state_machine.cpp:169-193 | from there no run ever starts a task again |
| `TaskLifecycle.NeverWedgedWithoutStaleStop` | services/dhcp_client/src/dhcp_client_state_machine.cpp:274-299 | runs without such a store never get there, and are idle whenever no task and no start is in progress |
| `TaskLifecycle.WedgeIsReachable` | services/dhcp_client/src/dhcp_client_state_machine.cpp:352-368 | an interleaving that gets there |
| `ServerHandlers.StepTakesNoLiveLease` | services/dhcp_server/src/dhcp_s_server.cpp:992-1515 | from any tables whatever and for any message, a lease that stays filed but under another MAC had expired at one of the readings of the clock the step takes: 2 + 3 HostTotal for a DISCOVER, five for the others |
| `LeaseOwnership.OwnerLosesLeaseOnlyBy` | services/dhcp_server/src/dhcp_s_server.cpp:992-1515 | over any run from sound tables, a MAC that holds an address at the start and not at the end held it up to a message at which its lease had run out, which it sent itself, or which drops the lease as the next rows say; if the address went straight to another MAC, the lease had run out |
| `LeaseOwnership.LiveLeaseLostIff` | services/dhcp_server/src/dhcp_s_server.cpp:992-1515 | one message from sound tables ends a live lease of another MAC than its sender's if and only if it is a RELEASE under the key of a binding of that address, a DISCOVER under the key of a binding made for that MAC, or a refused REQUEST for an address outside the range |
| `LeaseOwnership.DroppedOnlyBy` | services/dhcp_server/src/dhcp_s_server.cpp:1467-1515 | with a mask /24 or longer only a RELEASE from a client whose binding's address was leased anew or that shares its key, and a DISCOVER from one that shares its key, do so |
| `StaleBindings.LiveLeaseHandedOver` | services/dhcp_server/src/dhcp_s_server.cpp:1467-1515 | on a pool of one address, from an empty server: A discovers and releases, B discovers, A releases again, C discovers, all at one time, and B's live lease ends as C's |
| `StaleBindings.LiveLeaseIsHandedOver` | services/dhcp_server/src/dhcp_s_server.cpp:1467-1515 | the same for three given clients and a given pool |
| `StaleBindings.StaleBindingIsOffered` | services/dhcp_server/src/dhcp_s_server.cpp:955-1037 | after the first three of these messages a DISCOVER of A is answered with the address that B leases, and B's lease stays live |
| `StaleBindings.NewClientGetsIt` | services/dhcp_server/src/dhcp_s_server.cpp:905-1037 | a client without binding that finds no lease is offered the only address and leases it, with the tables that result |
| `StaleBindings.ReleaseDropsLease` | services/dhcp_server/src/dhcp_s_server.cpp:1467-1515 | a RELEASE drops the lease of the binding's address, whoever holds it, and keeps the binding |
| `ServerHandlers.StepKeepsTables` | services/dhcp_server/src/dhcp_s_server.cpp:992-1421 | leases stay filed under their own address, all addresses in both tables stay in the pool, an OFFER is a pool address and leaves its client at most one lease, and a nonzero ACK is the address asked for, unless the pool ends at 255.255.255.255 and only that is asked for |
| `ServerHandlers.BroadcastRequestIsAcked` | services/dhcp_server/src/dhcp_s_server.cpp:1371-1421 | in that one case the address of the binding is acknowledged, whatever it is |
| `LeaseOwnership.ForeignOfferIff` | services/dhcp_server/src/dhcp_s_server.cpp:955-1037 | an OFFER names an address leased to another MAC than that of the client's binding if and only if the client had a binding before whose address was leased so already; that lease is left as it was, live or not |
| `LeaseOwnership.ForeignLeaseIsOffered` | services/dhcp_server/src/dhcp_s_server.cpp:955-1037 | in such tables a DISCOVER is answered with that address, and the other client's lease stays |
| `LeaseOwnership.RunIsSafe` | services/dhcp_server/src/dhcp_s_server.cpp:422-465 | at every position of every run: sound tables, no filed lease under another MAC while live, live leases of others ended by exactly the messages above, and replies in order |
| `ServerHandlers.PoolMeaning` | services/dhcp_server/src/address_utils.cpp:129-141 | with a mask /24 or longer "in the pool" is the plain comparison in host byte order |
| `ServerHandlers.DiscoverKeepsTables` | services/dhcp_server/src/dhcp_s_server.cpp:955-1037 | after an offer the MAC of the binding holds at most the lease of the offered address |
| `ServerHandlers.RequestKeepsTables` | services/dhcp_server/src/dhcp_s_server.cpp:1371-1421 | a request keeps the tables and acknowledges only what was asked for |
| `ServerHandlers.NotBindingKeepsTables` | services/dhcp_server/src/dhcp_s_server.cpp:1095-1150 | so does a request from a client the server does not know |
| `LeaseOwnership.SharedKeySharesAddress` | services/dhcp_server/src/dhcp_s_server.cpp:905-1037 | a client whose binding key is that of another client is offered that client's address |
| `LeaseOwnership.OfferIsFromOwnBindingIff` | services/dhcp_server/src/dhcp_s_server.cpp:905-1037 | an OFFER is made from a binding of the client's own MAC if and only if no binding of another MAC was filed under its key |
| `LeaseOwnership.FreedBindingIff` | services/dhcp_server/src/dhcp_s_server.cpp:905-929 | the handler goes on writing to an erased binding if and only if the client had none and the first suitable address of the pool is an expired lease of another MAC under the client's key |
| `LeaseOwnership.AckedLeaseIsOwnIff` | services/dhcp_server/src/dhcp_s_server.cpp:1371-1421 | the lease of an acknowledged address is the client's if and only if it was so before, or was taken over: by a client with a binding when the second look at the expiry field finds it past too, by one without when it was associated |
| `LeaseOwnership.AckedLeaseKeepsOwner` | services/dhcp_server/src/dhcp_s_server.cpp:1371-1421 | between the end of a lease and its expiry field another client is acknowledged the address, and the lease keeps its owner and becomes associated |
| `ServerHandlers.LoadedLeasesOk` | services/dhcp_server/src/dhcp_address_pool.cpp:472-514 | a lease table read from any file is sound and in range |
| `ServerHandlers.StartIsSafe` | services/dhcp_server/src/dhcp_s_server.cpp:608-632 | a server started from any lease file begins with sound tables |
| `AddressPool.DistributeSoundComplete` | services/dhcp_server/src/dhcp_address_pool.cpp:183-224 | for every mask /1 to /30: failure means no host of the range was free for the client at the first reading; success gives the first free host of the walk, files one lease, removes one binding at most, and changes nothing else |
| `AddressPool.DistributeFindsFirst` | services/dhcp_server/src/dhcp_address_pool.cpp:130-224 | on any mask, the address given out is the first suitable one of the walk from its start, at the reading of its step, and none within HostTotal steps means failure |
| `AddressPool.OwnAddressGivenIff` | services/dhcp_server/src/dhcp_address_pool.cpp:88-128 | the address of the server or of the gateway is given to a client if and only if it is in range, not leased, and the walk comes to it before any suitable address |
| `AddressPool.FirstClientGetsServerAddress` | services/dhcp_server/src/dhcp_address_pool.cpp:183-224 | a server that sits first in its own range gives its address to its first client |
| `AddressPool.ScanTakesOnlyExpired` | services/dhcp_server/src/dhcp_address_pool.cpp:130-168 | a scan over any tables leaves every lease alone except the client's own and those expired at one of its readings, three a step |
| `AddressPool.ScanFindsFirst` | services/dhcp_server/src/dhcp_address_pool.cpp:130-168 | the scan stops at the first suitable address of the walk, or finds none |
| `AddressPool.MacHashCollides` | services/dhcp_server/src/dhcp_address_pool.cpp:43-50 | two MACs with one binding key |
| `AddressPool.KeysDiffer` | services/dhcp_server/src/dhcp_address_pool.cpp:43-50 | hardware addresses that differ in one octet, in its low five bits, have different keys |
| `DhcpServer.Server.constructor` | services/dhcp_server/src/dhcp_address_pool.cpp:472-514 | the tables after start are those of the lease file, and sound |
| `DhcpServer.Server.LoadBindingRecoders` | services/dhcp_server/src/dhcp_address_pool.cpp:472-514 | records in range, the last one of an address winning |
| `DhcpServer.Server.InitBindingRecoders` | services/dhcp_server/src/dhcp_s_server.cpp:608-632 | bindings and scan start recovered from the leases |
| `DhcpServer.Server.IsExpire` | services/dhcp_server/src/dhcp_binding.cpp:53-75 | the verdict, and the status it leaves in the record |
| `DhcpServer.Server.CheckIpAvailability` | services/dhcp_server/src/dhcp_address_pool.cpp:88-128 | an address is free, the client's own, or evicted from an expired lease |
| `DhcpServer.Server.AddressDistribute` | services/dhcp_server/src/dhcp_address_pool.cpp:183-224 | the walk over the pool, equal to the specification that is proved sound and complete |
| `DhcpServer.Server.DeleteMacInLease` | services/dhcp_server/src/dhcp_address_pool.cpp:572-588 | all leases of a MAC removed, and no other |
| `DhcpServer.Server.AddLease` | services/dhcp_server/src/dhcp_address_pool.cpp:389-410 | one lease added or replaced, unless address or MAC is empty |
| `DhcpServer.Server.RemoveLease` | services/dhcp_server/src/dhcp_address_pool.cpp:451-470 | one lease removed, unless address or MAC is empty |
| `DhcpServer.Server.GetBinding` | services/dhcp_server/src/dhcp_s_server.cpp:905-929 | the binding of a client, made and given an address when missing |
| `DhcpServer.Server.OnReceivedDiscover` | services/dhcp_server/src/dhcp_s_server.cpp:992-1037 | the offer and the tables behind it |
| `DhcpServer.Server.NotBindingRequest` | services/dhcp_server/src/dhcp_s_server.cpp:1095-1150 | a request without binding: distribute or refuse |
| `DhcpServer.Server.OnReceivedRequest` | services/dhcp_server/src/dhcp_s_server.cpp:1371-1421 | the answer to a request in each of its cases |
| `DhcpServer.Server.OnReceivedDecline` | services/dhcp_server/src/dhcp_s_server.cpp:1423-1465 | a declined address |
| `DhcpServer.Server.OnReceivedRelease` | services/dhcp_server/src/dhcp_s_server.cpp:1467-1515 | the lease of the binding's address removed, whoever holds it, the binding kept |
| `DhcpServer.Server.MessageProcess` | services/dhcp_server/src/dhcp_s_server.cpp:422-465 | one message keeps the tables sound, answers in order, files no live lease under another MAC, and ends of the live leases of others exactly those it drops |
| `AddressUtils.HostTotalOfMask` | services/dhcp_server/src/address_utils.cpp:52-75 | HostTotal of a mask /1 to /31 is 2^(32-p) - 1 |
| `AddressUtils.HostBitsLoop` | services/dhcp_server/src/address_utils.cpp:52-64 | the loop finds the lowest set bit of the mask |
| `AddressUtils.HostTotalLoop` | services/dhcp_server/src/address_utils.cpp:66-75 | the loop sums the powers of two without losing a carry |
| `AddressUtils.BroadcastIsBitwise` | services/dhcp_server/src/dhcp_s_server.cpp:931-953 | the broadcast address found by loops is the bitwise one the replies compute from address and mask |
| `AddressUtils.EndsOfMask` | services/dhcp_server/src/address_utils.cpp:45-50 | first, last and broadcast address of a subnet in host byte order |
| `AddressUtils.NextOfMask` | services/dhcp_server/src/address_utils.cpp:77-95 | the successor with offset 0 as a step on the ring of hosts |
| `AddressUtils.WalkCoversHosts` | services/dhcp_server/src/address_utils.cpp:77-95 | from any address every host is met within HostTotal steps |
| `AddressUtils.WalkIsOneCycle` | services/dhcp_server/src/address_utils.cpp:77-95 | the hosts form one cycle, none repeated before all were met |
| `AddressUtils.RangeOrdersAgree` | services/dhcp_server/src/address_utils.cpp:129-141 | IpInRange is the comparison in host byte order for /24 and longer |
| `AddressUtils.RangeOrdersDisagree` | services/dhcp_server/src/address_utils.cpp:129-141 | for every shorter mask there is a range in which it is not |
| `OptionCodec.SearchStaysInside` | services/dhcp_client/src/dhcp_options.cpp:151-201 | for arbitrary octets in all three fields, what is found lies wholly inside one field, right after the code asked for and its own length |
| `OptionCodec.ReaderFindsFirst` | services/dhcp_client/src/dhcp_options.cpp:151-201 | on an area without overload the reader returns exactly the first option with the code, else nothing |
| `OptionCodec.OverloadLeadsToFile` | services/dhcp_client/src/dhcp_options.cpp:27-68 | with overload options of one octet anywhere behind a first option of one octet, the first option with the code is found, and one that is absent is looked for in the file field exactly if bit 0 of the last overload octet is set; value 2 leads nowhere |
| `OptionCodec.OverloadIsReadIff` | services/dhcp_client/src/dhcp_options.cpp:27-42 | with overload options about, every option of every well-formed area is found if and only if the first option carries one octet |
| `OptionCodec.FileLeadsToSname` | services/dhcp_client/src/dhcp_options.cpp:45-68 | the file field leads on to the server name field exactly if bit 1 is set as well |
| `OptionCodec.GetDhcpOption` | services/dhcp_client/src/dhcp_options.cpp:151-201 | the index loop ends and equals the recursive search, on any octets |
| `OptionCodec.GetEndOptionIndex` | services/dhcp_client/src/dhcp_options.cpp:309-320 | the end mark behind the list of options that the area holds |
| `OptionCodec.HoldsIffEndIsMet` | services/dhcp_client/src/dhcp_options.cpp:309-320 | an area holds a list of options if and only if that loop meets an end mark before it leaves the area |
| `OptionCodec.AddOptStrToOpts` | services/dhcp_client/src/dhcp_options.cpp:323-347 | the octets of any option, with a new end mark, stand where the end mark was, and nothing else changes, exactly if it fits; a real option makes the list one longer |
| `OptionCodec.AddOptValueToOpts` | services/dhcp_client/src/dhcp_options.cpp:350-386 | the same for numbers, in the width their code has |
| `OptionCodec.ServerReadsWhatClientWrote` | services/dhcp_server/src/dhcp_s_server.cpp:1763-1812 | the server accepts what the client wrote exactly up to 244 octets of options, and then has the same options in the same order, less empty ones and the time offset |
| `OptionCodec.ParseMessageOptions` | services/dhcp_server/src/dhcp_s_server.cpp:1763-1812 | the walk over the octets fills the list with exactly what its specification gives |
| `OptionCodec.ReadersAgree` | services/dhcp_server/src/dhcp_s_server.cpp:1763-1812 | when the server has what the client wrote up to its end mark, client reader and server list agree on the first option of every code |
| `OptionList.FirstIndexUnique` | services/dhcp_server/src/dhcp_option.cpp:171-181 | the first index is determined by its meaning |
| `OptionList.List.PushBackOption` | services/dhcp_server/src/dhcp_option.cpp:89-114 | one option more at the end of the sequence; an empty one is refused |
| `OptionList.List.PushFrontOption` | services/dhcp_server/src/dhcp_option.cpp:116-144 | one option more at the front |
| `OptionList.List.GetOptionNode` | services/dhcp_server/src/dhcp_option.cpp:171-181 | the node of the first option with the code |
| `OptionList.List.GetOption` | services/dhcp_server/src/dhcp_option.cpp:183-190 | the first option with the code, found exactly if there is one |
| `OptionList.List.RemoveOption` | services/dhcp_server/src/dhcp_option.cpp:146-169 | exactly the first match taken out, links and size in order |
| `OptionList.List.ClearOptions` | services/dhcp_server/src/dhcp_option.cpp:192-214 | an empty list |
| `DnsRepository.UpsertAllKeeps` | services/dhcp_client/src/dhcp_ipv6_dns_repository.cpp:112-121 | addresses stay distinct, named ones carry the new expiry, others are untouched |
| `DnsRepository.TrimKeepsTheBest` | services/dhcp_client/src/dhcp_ipv6_dns_repository.cpp:123-160 | at most twelve live servers stay, and what goes had expired or expires no later than anything kept |
| `DnsRepository.FillChooses` | services/dhcp_client/src/dhcp_ipv6_dns_repository.cpp:123-160 | servers in use stay so, and three are in use, or all if there are fewer |
| `DnsRepository.AdvertisementRefreshes` | services/dhcp_client/src/dhcp_ipv6_dns_repository.cpp:42-73 | the whole effect of an advertisement on a sound repository |
| `DnsRepository.DnsServerRepository.AddServers` | services/dhcp_client/src/dhcp_ipv6_dns_repository.cpp:42-73 | that effect in place, nothing for a lifetime under the minimum, and true exactly if the servers in use changed |
| `DnsRepository.DnsServerRepository.UpdateCurrentServers` | services/dhcp_client/src/dhcp_ipv6_dns_repository.cpp:123-160 | trimming and refilling, and whether the servers in use changed |
| `DnsRepository.DnsServerRepository.UpdateExistingEntry` | services/dhcp_client/src/dhcp_ipv6_dns_repository.cpp:112-121 | the first entry of an address gets the expiry |
| `DnsRepository.InsertByExpiry` | services/dhcp_client/src/dhcp_ipv6_dns_repository.cpp:123-160 | one insertion of the sort |
| `ResultCache.RunKeepsStore` | services/dhcp_client/src/dhcp_result_store_manager.cpp:209-275 | from no file at all, any run of save, get, add and remove leaves a file that decodes to at most fifty records with distinct access points |
| `ResultCache.EnforceKeepsTheLatest` | services/dhcp_client/src/dhcp_result_store_manager.cpp:130-153 | only expired records go, and of more than fifty others those whose leases end first |
| `ResultCache.GoodFileDecodes` | services/dhcp_client/src/dhcp_result_store_manager.cpp:282-327 | a file written from good records decodes to them, in order, less the expired |
| `ResultCache.GetSeesFile` | services/dhcp_client/src/dhcp_result_store_manager.cpp:263-275 | a lookup sees the record that was written, unless it expired |
| `ResultCache.SaveThenGet` | services/dhcp_client/src/dhcp_result_store_manager.cpp:209-221 | after a save the access point has its new record and every other one in memory keeps its own, as far as it is kept and has not expired |
| `ResultCache.KeptUnlessCrowdedOut` | services/dhcp_client/src/dhcp_result_store_manager.cpp:130-153 | a live record is kept by a save unless the memory held fifty already, and then fifty others are kept none of which ends earlier |
| `ResultCache.SecondSaveForgets` | services/dhcp_client/src/dhcp_result_store_manager.cpp:330-359 | after two saves in a row every other access point is forgotten, because saving empties the memory |
| `ResultCache.RemoveThenGet` | services/dhcp_client/src/dhcp_result_store_manager.cpp:223-239 | a removal takes exactly the records of the network |
| `ResultCache.AddThenGet` | services/dhcp_client/src/dhcp_result_store_manager.cpp:241-261 | an addition renames exactly the record of the access point |
| `ResultCache.LateLeaseIsFoundIff` | services/dhcp_client/src/dhcp_result_store_manager.cpp:58-102 | a saved lease is found again exactly if it is kept and what 32 bits leave of its end is not a past time |
| `ResultCache.InfiniteLeaseIsForgotten` | services/utils/src/dhcp_common_utils.cpp:162-176 | an infinite lease is forgotten as soon as it is saved |
| `CacheText.SavedTextIsLoaded` | services/dhcp_client/src/dhcp_result_store_manager.cpp:282-359 | the text of any storable records is read as those records in order, values trimmed and lease ends cut to 32 bits; unchanged exactly if nothing is to trim and all ends fit |
| `CacheText.PairLineIsRead` | services/dhcp_client/src/dhcp_result_store_manager.cpp:155-183 | a written line is read as its key and its trimmed value |
| `CacheText.PairsSet` | services/dhcp_client/src/dhcp_result_store_manager.cpp:58-102 | the eleven keys set all eleven fields, whatever was in the record before |
| `CacheText.NetworkIsRead` | services/dhcp_client/src/dhcp_result_store_manager.cpp:185-206 | the lines of a record are read as that record, without error, up to its closing brace |
| `CacheText.LinesOfUnlines` | services/dhcp_client/src/dhcp_result_store_manager.cpp:282-327 | reading by lines undoes writing by lines |
| `CacheText.TrimString` | services/dhcp_client/src/dhcp_result_store_manager.cpp:45-56 | the two index loops |
| `ResultStore.ReadNetworkSection` | services/dhcp_client/src/dhcp_result_store_manager.cpp:155-183 | the loop over a section |
| `ResultStore.ReadNetworkLines` | services/dhcp_client/src/dhcp_result_store_manager.cpp:185-206 | the loop over a record |
| `ResultStore.ReadRecords` | services/dhcp_client/src/dhcp_result_store_manager.cpp:282-327 | the loop over a file, one structure reused |
| `ResultStore.WriteRecords` | services/dhcp_client/src/dhcp_result_store_manager.cpp:330-359 | the loop that writes the text that is proved readable |
| `ResultStore.DhcpResultStoreManager.EnforceMaxCache` | services/dhcp_client/src/dhcp_result_store_manager.cpp:130-153 | the limit applied to the memory |
| `ResultStore.DhcpResultStoreManager.LoadAll` | services/dhcp_client/src/dhcp_result_store_manager.cpp:282-327 | the memory replaced by the file |
| `ResultStore.DhcpResultStoreManager.Save` | services/dhcp_client/src/dhcp_result_store_manager.cpp:330-359 | the file replaced by the memory, which is emptied |
| `ResultStore.DhcpResultStoreManager.SaveIpInfo` | services/dhcp_client/src/dhcp_result_store_manager.cpp:209-221 | a record saved |
| `ResultStore.DhcpResultStoreManager.GetIp` | services/dhcp_client/src/dhcp_result_store_manager.cpp:263-275 | a record looked up |
| `ResultStore.DhcpResultStoreManager.RemoveIp` | services/dhcp_client/src/dhcp_result_store_manager.cpp:223-239 | the records of a network removed |
| `ResultStore.DhcpResultStoreManager.AddIp` | services/dhcp_client/src/dhcp_result_store_manager.cpp:241-261 | a network's name added |
| `LeaseRecord.WrittenRecordIsRead` | services/dhcp_server/src/dhcp_binding.cpp:89-109 | a written record is accepted exactly if its times are in order, and all its fields come back, moved to the present if they lie in the future |
| `LeaseRecord.RoundTripIff` | services/dhcp_server/src/dhcp_binding.cpp:193-235 | the round trip is exact if and only if the times are in order and not in the future |
| `LeaseRecord.NameSurvivesIff` | services/dhcp_server/src/dhcp_binding.cpp:193-235 | the device name survives if and only if there is no space in it |
| `LeaseRecord.VerdictKept` | services/dhcp_server/src/dhcp_binding.cpp:53-75 | pending and associated records expire when they would have, at every later time |
| `LeaseRecord.OtherVerdictKeptIff` | services/dhcp_server/src/dhcp_binding.cpp:193-235 | a record in any other status comes back expired, which is the same verdict exactly once it had expired |
| `LeaseRecord.MovedVerdict` | services/dhcp_server/src/dhcp_binding.cpp:193-235 | a record from the future is judged as before, and exactly when one without binding time is |
| `LeaseRecord.FutureRecordRevived` | services/dhcp_server/src/dhcp_binding.cpp:193-235 | an expired record that parsing brings back to life |
| `LeaseRecord.LoadedLineIsRead` | services/dhcp_server/src/dhcp_address_pool.cpp:472-514 | through the file the name gains a newline, and everything else is as above |
| `LeaseRecord.SavedTableReloads` | services/dhcp_server/src/dhcp_address_pool.cpp:472-561 | a lease table saved and loaded again holds exactly the leases whose times are in order, each restored under its address and MAC, moved to the present if it lies in the future; an expiry comes back only for associated records |
| `LeaseRecord.WriteAddressBinding` | services/dhcp_server/src/dhcp_binding.cpp:89-109 | the text of a record, or failure exactly if the buffer is too small |
| `LeaseRecord.ParseAddressBinding` | services/dhcp_server/src/dhcp_binding.cpp:193-235 | the fields of a line, with the branches on count and times |
| `LeaseText.CountPieces` | services/dhcp_server/src/dhcp_binding.cpp:143-191 | the counting pass |
| `LeaseText.FillPieces` | services/dhcp_server/src/dhcp_binding.cpp:143-191 | the filling pass fills exactly the array that was counted |
| `LeaseText.SplitString` | services/dhcp_server/src/dhcp_binding.cpp:127-191 | both passes, and the refusal of empty, short or long lines |
| `LeaseText.SplitSpaced` | services/dhcp_server/src/dhcp_binding.cpp:143-191 | splitting undoes joining |
| `LeaseText.ParseMacAddress` | services/dhcp_server/src/address_utils.cpp:216-245 | the character loop equals reading six groups; a bad group ends it |
| `LeaseText.ReadGroups` | services/dhcp_server/src/address_utils.cpp:216-245 | accepted exactly if every group is two hexadecimal digits and a colon, and the octets are their values |
| `LeaseText.MacRoundTrip` | services/dhcp_server/src/address_utils.cpp:188-200 | a printed MAC is read back |
| `LeaseText.IpRoundTrip` | services/dhcp_server/src/address_utils.cpp:151-186 | a printed address is read back |
| `Text.LegalIsExact` | services/utils/src/dhcp_common_utils.cpp:162-176 | CheckDataLegal is exact on the numbers an int holds, and only on those |
| `Text.Uint64IsExact` | services/utils/src/dhcp_common_utils.cpp:212-227 | CheckDataToUint64 is exact on 64-bit numbers |
| `Ipv6Info.RunKeepsInfo` | services/dhcp_client/src/dhcp_ipv6_info.cpp:184-258 | in every run with addresses under 128 octets: each field is empty exactly if no address has its type and otherwise shows one that has it; routes are distinct with the field on the first that fits; the lifetime is the smaller temporary one |
| `Ipv6Info.UpdateAgreesIff` | services/dhcp_client/src/dhcp_ipv6_info.cpp:184-208 | an update keeps the agreement if and only if the address is not exactly 128 octets long or not the first of its type, and succeeds exactly on a new or changed address that fits |
| `Ipv6Info.LongAddressBreaksAgreement` | services/dhcp_client/src/dhcp_ipv6_info.cpp:184-208 | an address of 128 octets enters the table but not its field |
| `Ipv6Info.RemoveAgrees` | services/dhcp_client/src/dhcp_ipv6_info.cpp:210-258 | a removal keeps the agreement, whichever address takes the field |
| `Ipv6Info.RouteOperationsKeep` | services/dhcp_client/src/dhcp_ipv6_info.cpp:24-78 | route operations keep the list free of duplicates and the field in step, and change exactly one route |
| `Ipv6Info.RemovalReportsNothing` | services/dhcp_client/src/dhcp_ipv6_info.cpp:49-78 | a removal that finds nothing reports a change exactly if a route that fits is left |
| `Ipv6Info.RemoveUndoesAdd` | services/dhcp_client/src/dhcp_ipv6_info.cpp:24-78 | removing an added route restores the state |
| `Ipv6Info.FittingHead` | services/dhcp_client/src/dhcp_ipv6_info.cpp:24-47 | when all routes fit, the field is the head of the list |
| `Ipv6Manager.DhcpIpv6Info.UpdateAddr` | services/dhcp_client/src/dhcp_ipv6_info.cpp:184-208 | the update in place, as one of the transitions of the relation |
| `Ipv6Manager.DhcpIpv6Info.RemoveAddr` | services/dhcp_client/src/dhcp_ipv6_info.cpp:210-258 | the removal in place |
| `Ipv6Manager.DhcpIpv6Info.FindFallback` | services/dhcp_client/src/dhcp_ipv6_info.cpp:210-258 | the loop over the table finds an address of the type exactly if there is one |
| `Ipv6Manager.DhcpIpv6Info.AddRouteAddr` | services/dhcp_client/src/dhcp_ipv6_info.cpp:24-47 | a route added |
| `Ipv6Manager.DhcpIpv6Info.EraseRoute` | services/dhcp_client/src/dhcp_ipv6_info.cpp:49-78 | the backward loop erases every occurrence |
| `Ipv6Manager.DhcpIpv6Info.CopyFirstRoute` | services/dhcp_client/src/dhcp_ipv6_info.cpp:24-47 | the loop that copies the first route that fits |
| `Ipv6Manager.DhcpIpv6Info.RemoveRouteAddr` | services/dhcp_client/src/dhcp_ipv6_info.cpp:49-78 | a route removed |
| `Ipv6Manager.DhcpIpv6Info.AddLife` | services/dhcp_client/src/dhcp_ipv6_info.cpp:260-306 | one of the five lifetimes set |
| `Checksum.GetCheckSum` | services/dhcp_client/src/dhcp_socket.cpp:68-89 | the 32-bit loops lose no carry up to 128 KiB, the folding ends, and the result is the complement of the one's-complement sum |
| `Checksum.AddWords` | services/dhcp_client/src/dhcp_socket.cpp:68-89 | the summing loop |
| `Checksum.FoldedSum` | services/dhcp_client/src/dhcp_socket.cpp:68-89 | folding the plain sum is one's-complement addition |
| `Checksum.HeaderVerifies` | services/dhcp_client/src/dhcp_socket.cpp:415-435 | a header summed with its checksum in place gives all ones |
| `Checksum.OneWordDamageIsNoticed` | services/dhcp_client/src/dhcp_socket.cpp:415-435 | any change of one other word is noticed, unless it turns all zeros into all ones or back |
| `Checksum.SenderAndReceiverAgree` | services/dhcp_client/src/dhcp_socket.cpp:249-287 | the sum over the padded structure equals that over what was sent, exactly if its length is even or the stray octet of an odd one is 0 |
| `Checksum.SentPacketIsAccepted` | services/dhcp_client/src/dhcp_socket.cpp:415-464 | a sent packet passes the receiver's header check always, and its datagram check exactly under that condition or when the checksum came out as 0 |
| `Checksum.ByteOrderIndependent` | services/dhcp_client/src/dhcp_socket.cpp:68-89 | summing in host byte order stores the octets that network byte order would |

## Left out

- IPC proxies and stubs, permission checks, socket creation, filters, netlink, interface configuration and ARP
  transmission: calls into frameworks and the kernel; what they deliver is an input.
- Random distribution mode and address reservation at configuration time: the sequential mode carries the search.
- LeaseOwnership.RunIsSafe: after a write to an erased binding the run goes on with the tables as they are without it;
  what the write does to freed memory is not modelled.
- DHCPINFORM, vendor, host name, user class and portal options of the server's messages: they do not touch the tables.
- Serialisation of server replies: the end mark is refused by the list, so there is no clean round trip.
- `ExecDhcpRenew`, `ExecDhcpRelease` and `SetConfiguration`: the first two are not called by the machine, the last one
  only stores its argument.
- The extra publication of an offer on wlan and the parsing of vendor, DNS and host name text inside an ACK: the parsed
  result is one value of the model.
- DhcpClient.StateMachine.Handle: a handler is one step here; what interleaves with it (stops, timers, task exit) is
  modelled load by load in `TaskLifecycle`, without the machine's data.
- ClientTiming.ScheduleArms: the nine-tenths multiple, a product of doubles in the source, is taken as an integer floor.
- AddressPool.DistributeSoundComplete: stated for leases and scan start inside the range; at start that is
  `ServerHandlers.LoadedLeasesOk`, and `StepKeepsTables` keeps it for /24 and longer (`PoolMeaning`).
- ServerHandlers.StepTakesNoLiveLease: the source address of a datagram reads back as 0 in the handlers, since its
  accessor resets it (services/dhcp_server/src/dhcp_s_server.cpp:223-246), so their branches on it are not present.
- `SetCurrentServers`: copying the servers in use into fixed buffers.
- DnsRepository.DnsServerRepository.AddServers: lifetimes times 1000 are not wrapped to 64 bits.
- LeaseText.IpRoundTrip: `inet_aton` is modelled on dotted quads; its octal, hexadecimal and shortened forms are not.
- LeaseRecord.ParseAddressBinding: a device name of 64 octets or more, which runs on into the next field, is kept whole.
- LeaseRecord.SavedTableReloads: opening and writing the file succeed, and every record fits its line.
- ResultStore.DhcpResultStoreManager.Save: opening and writing the file succeed; a failed `fopen` is not modelled.
- CacheText.SavedTextIsLoaded: NUL characters inside a value and the values of a record that are not saved.
- ResultCache.EnforceKeepsTheLatest: `std::sort` may order records with equal ends either way; the model takes one order.
- OptionCodec.GetEndOptionIndex: where no end mark is met the source reads past the area; by `HoldsIffEndIsMet` the
  contract leaves out exactly those areas.
- `UpdateUseTempAddr`: writes to a kernel file.
- Checksum.SentPacketIsAccepted: the length fields are taken as given; `CheckUdpPacket` is not part of this model.
