/**
 Timers and lease times of the client state machine: which timers it owns, when entering BOUND
 arms them, and when they fall due.
 */
module ClientTiming {
  import opened Wrappers
  import opened Words
  import opened ClientMachine
  import opened ClientRuns

  // ----- Timers -----

  /** The timers created and not destroyed are exactly the nonzero slot ids, one per slot. */
  ghost predicate TimersOk(t: Timers) {
    && (forall s: Slot | IdOf(t, s) != 0 :: IdOf(t, s) in t.live)
    && (forall id <- t.live :: 0 < id <= t.created && exists s: Slot :: IdOf(t, s) == id)
    && (forall s: Slot, u: Slot | IdOf(t, s) == IdOf(t, u) && IdOf(t, s) != 0 :: s == u)
  }

  predicate LeaseTimersClosed(t: Timers) {
    IdOf(t, RenewDelay) == 0 && IdOf(t, RebindDelay) == 0 && IdOf(t, RemainingDelay) == 0
  }

  lemma TimerIds(t: Timers, slot: Slot, interval: int, s: Slot)
    ensures IdOf(StartTimer(t, slot, interval), s) ==
            if s == slot && IdOf(t, slot) == 0 then t.created + 1 else IdOf(t, s)
    ensures IdOf(StopTimer(t, slot), s) == if s == slot then 0 else IdOf(t, s)
  {
  }

  lemma StartTimerOk(t: Timers, slot: Slot, interval: int)
    requires TimersOk(t)
    ensures TimersOk(StartTimer(t, slot, interval))
    ensures forall s: Slot | s != slot :: IdOf(StartTimer(t, slot, interval), s) == IdOf(t, s)
  {
    forall s: Slot
      ensures IdOf(StartTimer(t, slot, interval), s) ==
              if s == slot && IdOf(t, slot) == 0 then t.created + 1 else IdOf(t, s)
    {
      TimerIds(t, slot, interval, s);
    }
    if IdOf(t, slot) == 0 {
      NewTimerOk(t, StartTimer(t, slot, interval), slot, interval);
    }
  }

  /** One more live timer, under an id that is new. */
  lemma NewTimerOk(t: Timers, t': Timers, slot: Slot, interval: int)
    requires TimersOk(t) && IdOf(t, slot) == 0
    requires t'.live == t.live[t.created + 1 := interval] && t'.created == t.created + 1
    requires forall s: Slot :: IdOf(t', s) == if s == slot then t'.created else IdOf(t, s)
    ensures TimersOk(t')
  {
    hide IdOf;
    forall id | id in t'.live
      ensures 0 < id <= t'.created && exists s: Slot :: IdOf(t', s) == id
    {
      if id != t'.created {
        var s :| IdOf(t, s) == id;
        assert IdOf(t', s) == id;
      } else {
        assert IdOf(t', slot) == id;
      }
    }
  }

  lemma StartTimerArms(t: Timers, slot: Slot, interval: int)
    requires TimersOk(t) && IdOf(t, slot) == 0
    ensures var t' := StartTimer(t, slot, interval);
            && IdOf(t', slot) != 0 && IdOf(t', slot) !in t.live
            && t'.live == t.live[IdOf(t', slot) := interval]
            && forall s: Slot | s != slot && IdOf(t, s) != 0 :: IdOf(t', s) in t.live
  {
  }

  lemma StopTimerOk(t: Timers, slot: Slot)
    requires TimersOk(t)
    ensures TimersOk(StopTimer(t, slot))
    ensures forall s: Slot :: IdOf(StopTimer(t, slot), s) == if s == slot then 0 else IdOf(t, s)
  {
    hide IdOf;
    var t' := StopTimer(t, slot);
    forall s: Slot
      ensures IdOf(t', s) == if s == slot then 0 else IdOf(t, s)
    {
      TimerIds(t, slot, 0, s);
    }
    forall id | id in t'.live
      ensures exists s: Slot :: IdOf(t', s) == id
    {
      var s :| IdOf(t, s) == id;
      assert IdOf(t', s) == id;
    }
  }

  lemma StopAnyOk()
    ensures forall t: Timers, slot: Slot | TimersOk(t) :: TimersOk(StopTimer(t, slot))
    ensures forall t: Timers, slot: Slot, s: Slot | TimersOk(t) ::
              IdOf(StopTimer(t, slot), s) == if s == slot then 0 else IdOf(t, s)
  {
    forall t: Timers, slot: Slot | TimersOk(t)
      ensures TimersOk(StopTimer(t, slot))
      ensures forall s: Slot :: IdOf(StopTimer(t, slot), s) == if s == slot then 0 else IdOf(t, s)
    {
      StopTimerOk(t, slot);
    }
  }

  lemma StartAnyOk()
    ensures forall t: Timers, slot: Slot, n: int | TimersOk(t) :: TimersOk(StartTimer(t, slot, n))
    ensures forall t: Timers, slot: Slot, n: int, s: Slot | TimersOk(t) && s != slot ::
              IdOf(StartTimer(t, slot, n), s) == IdOf(t, s)
  {
    forall t: Timers, slot: Slot, n: int | TimersOk(t)
      ensures TimersOk(StartTimer(t, slot, n))
      ensures forall s: Slot | s != slot :: IdOf(StartTimer(t, slot, n), s) == IdOf(t, s)
    {
      StartTimerOk(t, slot, n);
    }
  }

  /** While an address is being probed or declined, no lease timer runs. */
  ghost predicate TimerInv(c: Client) {
    TimersOk(c.timers) && (Probing(c.st) ==> LeaseTimersClosed(c.timers))
  }

  lemma ScheduleOk(c: Client, isCachedIp: bool, env: Env)
    requires TimersOk(c.timers)
    ensures TimersOk(ScheduleLeaseTimers(c, isCachedIp, env).timers)
  {
    hide TimersOk, StartTimer, StopTimer, IdOf, RemainingMs;
    StopAnyOk();
    StartAnyOk();
  }

  lemma EnterBoundOk(c: Client, env: Env)
    requires TimersOk(c.timers)
    ensures TimerInv(EnterBound(c, env))
  {
    hide TimersOk, StartTimer, StopTimer, IdOf, ScheduleLeaseTimers;
    StopAnyOk();
    var c1 := StopIpv4(c.(st := Bound, sent := 0, resendTimer := 0, timeout := env.now + c.renewalSec));
    ScheduleOk(c1, false, env);
    ScheduleChangesTimersOnly(c1, false, env);
  }

  lemma TryCachedOk(c: Client, env: Env)
    requires TimerInv(c) && !Probing(c.st)
    ensures TimerInv(TryCachedIp(c, env)) && TryCachedIp(c, env).st == c.st
  {
    hide TimersOk, StartTimer, StopTimer, IdOf, ScheduleLeaseTimers;
    StopAnyOk();
    if env.cached.Some? {
      var r := env.cached.value.result;
      var c1 := StopIpv4(PublishResult(Log(c, CacheRead(r)), r, env.publishOk));
      var c2 := c1.(leaseTime := r.leaseTime, renewalSec := RenewalOf(r.leaseTime), rebindSec := RebindOf(r.leaseTime),
                    renewalTimestamp := env.now % WORD_SIZE);
      ScheduleOk(c2, true, env);
      ScheduleChangesTimersOnly(c2, true, env);
    }
  }

  lemma TimeoutOk(c: Client, env: Env)
    requires TimerInv(c)
    ensures TimerInv(DhcpRequestHandle(c, env))
  {
    hide TimersOk, StartTimer, StopTimer, IdOf, ScheduleLeaseTimers, TryCachedIp, EnterBound, WaitSec;
    StopAnyOk();
    StartAnyOk();
    EnterBoundOk(c, env);
    if c.st == Init || c.st == Selecting {
      var xid := if c.sent == 0 then env.random else c.transId;
      TryCachedOk(Log(c, Send(DiscoverMsg, xid, c.requestedIp, 0)).(transId := xid, st := Selecting), env);
    } else if c.st == Requesting || c.st == Renewed {
      var msg := if c.st == Renewed then RenewMsg else RequestMsg;
      TryCachedOk(Log(c, Send(msg, c.transId, c.requestedIp, c.serverIp)), env);
    }
  }

  lemma ReceiveOk(c: Client, received: Option<Packet>, env: Env)
    requires TimerInv(c)
    ensures TimerInv(DhcpResponseHandle(c, received, env))
  {
    hide TimersOk, StartTimer, StopTimer, IdOf, ScheduleLeaseTimers, EnterBound, ParseAck;
    StopAnyOk();
    if received.Some? {
      var c1 := ParseDhcpAckPacket(GetDhcpOffer(c, received.value, env), received.value, env);
      var c2 := c1.(timers := CloseAllRenewTimer(c1.timers));
      EnterBoundOk(PublishResult(c2, c2.result, true), env);
    }
  }

  lemma StepKeepsTimers(c: Client, i: Input)
    requires TimerInv(c) && TaskOk(c)
    ensures TimerInv(Step(c, i))
  {
    hide TimersOk, StartTimer, StopTimer, IdOf, ScheduleLeaseTimers, EnterBound, DhcpRequestHandle, DhcpResponseHandle,
      WaitSec;
    StopAnyOk();
    StartAnyOk();
    match i
    case Timeout(env) => TimeoutOk(c, env);
    case Receive(p, env) => ReceiveOk(c, p, env);
    case ArpDone(reachable, env) => EnterBoundOk(Log(c, SlowProbe(c.arpTarget, reachable)), env);
    case ArpTimeout(env) => EnterBoundOk(c, env);
    case _ =>
  }

  /** In every run the live timers are exactly those the slots know, and none is leaked or shared. */
  lemma {:induction false} RunKeepsTimers(inputs: seq<Input>)
    ensures TimersOk(Run(inputs).timers) && TimerInv(Run(inputs))
    decreases |inputs|
  {
    hide Step, TimerInv, Inv, TaskOk;
    if inputs == [] {
      NewClientTimers();
    } else {
      RunKeepsTimers(inputs[..|inputs| - 1]);
      RunKeepsInv(inputs[..|inputs| - 1]);
      InvGivesTaskOk(Run(inputs[..|inputs| - 1]));
      StepKeepsTimers(Run(inputs[..|inputs| - 1]), inputs[|inputs| - 1]);
    }
    TimerInvGivesOk(Run(inputs));
  }

  lemma InvGivesTaskOk(c: Client)
    requires Inv(c)
    ensures TaskOk(c)
  {
  }

  lemma NewClientTimers()
    ensures TimerInv(NEW_CLIENT)
  {
  }

  lemma TimerInvGivesOk(c: Client)
    requires TimerInv(c)
    ensures TimersOk(c.timers)
  {
  }

  // ----- Lease times -----

  /** In every run renewal is due no later than rebinding, and rebinding no later than the end of the lease. */
  lemma {:induction false} LeaseTimesOrdered(inputs: seq<Input>)
    ensures var c := Run(inputs); c.renewalSec <= c.rebindSec <= c.leaseTime
  {
    hide Run, TaskOk, TalliesOk, ResultOk, SentBounded, ResendOk;
    RunKeepsInv(inputs);
  }

  function IntervalOf(t: Timers, slot: Slot): int
    requires IdOf(t, slot) in t.live
  {
    t.live[IdOf(t, slot)]
  }

  /** Scheduling arms T1, T2 (except on a specific network) and the expiry, in order and within the lease. */
  lemma ScheduleArms(c: Client, isCachedIp: bool, env: Env)
    requires TimersOk(c.timers)
    ensures var t := ScheduleLeaseTimers(c, isCachedIp, env).timers;
            var remaining := RemainingMs(c.leaseTime, LeaseDelay(c, isCachedIp, env));
            && IdOf(t, RenewDelay) in t.live && IdOf(t, RemainingDelay) in t.live
            && IntervalOf(t, RemainingDelay) == remaining
            && 0 <= IntervalOf(t, RenewDelay) <= remaining <= 1000 * c.leaseTime
            && (env.specificNetwork ==> IdOf(t, RebindDelay) == 0 && IntervalOf(t, RenewDelay) == remaining * 9 / 10)
            && (!env.specificNetwork ==>
                  && IdOf(t, RebindDelay) in t.live
                  && IntervalOf(t, RenewDelay) == remaining / 2 && IntervalOf(t, RebindDelay) == remaining * 7 / 8
                  && IntervalOf(t, RenewDelay) <= IntervalOf(t, RebindDelay) <= remaining)
  {
    hide TimersOk, StartTimer, StopTimer, IdOf, RemainingMs;
    var remaining := RemainingMs(c.leaseTime, LeaseDelay(c, isCachedIp, env));
    RemainingBounds(c.leaseTime, LeaseDelay(c, isCachedIp, env));
    StopAnyOk();
    var t0 := CloseAllRenewTimer(c.timers);
    StartAnyOk();
    if env.specificNetwork {
      var t1 := StartTimer(t0, RenewDelay, remaining * 9 / 10);
      StartTimerArms(t0, RenewDelay, remaining * 9 / 10);
      StartTimerArms(t1, RemainingDelay, remaining);
    } else {
      var t1 := StartTimer(t0, RenewDelay, remaining / 2);
      var t2 := StartTimer(t1, RebindDelay, remaining * 7 / 8);
      StartTimerArms(t0, RenewDelay, remaining / 2);
      StartTimerArms(t1, RebindDelay, remaining * 7 / 8);
      StartTimerArms(t2, RemainingDelay, remaining);
    }
  }

  lemma RemainingBounds(lease: u32, delay: int)
    requires delay >= 0
    ensures 0 <= RemainingMs(lease, delay) <= 1000 * lease
  {
  }

  /**
   The expiry falls due at the end of the lease exactly if the timers are armed within it: armed
   before the lease was obtained or after its end, they grant a whole new lease from now.
   */
  lemma ExpiryFallsDue(c: Client, env: Env)
    requires TimersOk(c.timers)
    ensures var t := ScheduleLeaseTimers(c, false, env).timers;
            var obtained, end := c.renewalTimestampBoot, c.renewalTimestampBoot + c.leaseTime;
            && IdOf(t, RemainingDelay) in t.live
            && (1000 * env.boot + IntervalOf(t, RemainingDelay) == 1000 * end <==> obtained <= env.boot <= end)
            && (!(obtained <= env.boot <= end) ==> IntervalOf(t, RemainingDelay) == 1000 * c.leaseTime)
  {
    hide TimersOk, StartTimer, StopTimer, IdOf, ScheduleLeaseTimers;
    ScheduleArms(c, false, env);
  }

  /**
   A cached lease is granted whole from the time it is taken up, whatever end its record has: its
   expiry falls due at that end exactly if the record says that the lease was obtained just now,
   and late by the time since then otherwise.
   */
  lemma CachedLeaseStartsOver(c: Client, env: Env)
    requires TimersOk(c.timers) && env.cached.Some? && 0 <= env.now < WORD_SIZE
    ensures var t, record := TryCachedIp(c, env).timers, env.cached.value;
            var obtained := record.end - record.result.leaseTime;
            && IdOf(t, RemainingDelay) in t.live
            && 1000 * env.now + IntervalOf(t, RemainingDelay) == 1000 * (record.end + (env.now - obtained))
            && (1000 * env.now + IntervalOf(t, RemainingDelay) == 1000 * record.end <==> obtained == env.now)
  {
    hide TimersOk, StartTimer, StopTimer, IdOf, ScheduleLeaseTimers;
    StopAnyOk();
    var r := env.cached.value.result;
    var c1 := StopIpv4(PublishResult(Log(c, CacheRead(r)), r, env.publishOk));
    var c2 := c1.(leaseTime := r.leaseTime, renewalSec := RenewalOf(r.leaseTime), rebindSec := RebindOf(r.leaseTime),
                  renewalTimestamp := env.now % WORD_SIZE);
    ScheduleArms(c2, true, env);
  }

  // ----- Entering BOUND -----

  predicate Armed(t: Timers) {
    IdOf(t, RenewDelay) != 0 && IdOf(t, RemainingDelay) != 0
  }

  lemma EnterBoundArms(c: Client, env: Env)
    requires TimersOk(c.timers)
    ensures EnterBound(c, env).st == Bound && Armed(EnterBound(c, env).timers)
  {
    EnterBoundOk(c, env);
    hide StartTimer, StopTimer, IdOf, ScheduleLeaseTimers;
    StopAnyOk();
    var c1 := StopIpv4(c.(st := Bound, sent := 0, resendTimer := 0, timeout := env.now + c.renewalSec));
    ScheduleArms(c1, false, env);
    ScheduleChangesTimersOnly(c1, false, env);
  }

  lemma TimeoutArms(c: Client, env: Env)
    requires TimerInv(c) && c.st != Bound && DhcpRequestHandle(c, env).st == Bound
    ensures c.st != Declined ==> Armed(DhcpRequestHandle(c, env).timers)
    ensures c.st == Declined ==> LeaseTimersClosed(DhcpRequestHandle(c, env).timers)
  {
    hide TimersOk, StartTimer, StopTimer, IdOf, ScheduleLeaseTimers, EnterBound, WaitSec, TryCachedIp, Armed;
    StopAnyOk();
    EnterBoundArms(c, env);
    if c.st == Init || c.st == Selecting {
      var xid := if c.sent == 0 then env.random else c.transId;
      TryCachedOk(Log(c, Send(DiscoverMsg, xid, c.requestedIp, 0)).(transId := xid, st := Selecting), env);
    } else if c.st == Requesting || c.st == Renewed {
      var msg := if c.st == Renewed then RenewMsg else RequestMsg;
      TryCachedOk(Log(c, Send(msg, c.transId, c.requestedIp, c.serverIp)), env);
    }
  }

  lemma AckArms(c: Client, received: Option<Packet>, env: Env)
    requires TimerInv(c) && c.st != Bound && DhcpResponseHandle(c, received, env).st == Bound
    ensures c.st != Declined && Armed(DhcpResponseHandle(c, received, env).timers)
  {
    hide TimersOk, StartTimer, StopTimer, IdOf, ScheduleLeaseTimers, EnterBound, ParseAck, Armed;
    StopAnyOk();
    var c1 := ParseDhcpAckPacket(GetDhcpOffer(c, received.value, env), received.value, env);
    var c2 := c1.(timers := CloseAllRenewTimer(c1.timers));
    EnterBoundArms(PublishResult(c2, c2.result, true), env);
  }

  lemma StepArms(c: Client, i: Input)
    requires TimerInv(c) && TaskOk(c) && c.st != Bound && Step(c, i).st == Bound
    ensures c.st != Declined ==> Armed(Step(c, i).timers)
    ensures c.st == Declined ==> LeaseTimersClosed(Step(c, i).timers)
  {
    hide TimersOk, StartTimer, StopTimer, IdOf, EnterBound, DhcpRequestHandle, DhcpResponseHandle, Armed;
    match i
    case Timeout(env) => TimeoutArms(c, env);
    case Receive(p, env) => AckArms(c, p, env);
    case ArpDone(reachable, env) => EnterBoundArms(Log(c, SlowProbe(c.arpTarget, reachable)), env);
    case ArpTimeout(env) => EnterBoundArms(c, env);
    case _ =>
  }

  /**
   In every run, whatever input takes the client to BOUND arms its renewal and its expiry if and
   only if it was not in DECLINED: the third conflict of a task leaves every lease timer unarmed.
   */
  lemma {:induction false} BoundIsArmedIff(inputs: seq<Input>, i: Input)
    requires Run(inputs).st != Bound && Step(Run(inputs), i).st == Bound
    ensures Armed(Step(Run(inputs), i).timers) <==> Run(inputs).st != Declined
    ensures Run(inputs).st == Declined ==> LeaseTimersClosed(Step(Run(inputs), i).timers)
  {
    hide Run, Step, TimerInv, Inv;
    RunKeepsTimers(inputs);
    RunKeepsInv(inputs);
    InvGivesTaskOk(Run(inputs));
    StepArms(Run(inputs), i);
  }

  // ----- A run to the third conflict -----

  /** A quiet environment at a time: the given probe result, nothing cached, every call succeeding. */
  function At(now: int, answered: bool): Env {
    Env(now, now, 7, answered, true, true, None, false, false)
  }

  /** One round from INIT: discovery, an offer, a request, an acknowledgement and a probe that is answered. */
  function Round(now: int): seq<Input> {
    [Timeout(At(now, false)),
     Receive(Some(Packet(7, 9, Some(OfferType), None, Some(1), None, [], [])), At(now, false)),
     Timeout(At(now, false)),
     Receive(Some(Packet(7, 9, Some(AckType), None, Some(1), None, [], [])), At(now, false)),
     Timeout(At(now, true))]
  }

  /** A round and the timeout that declines the address. */
  function AndDeclined(inputs: seq<Input>, now: int): seq<Input> {
    inputs + Round(now) + [Timeout(At(now, false))]
  }

  const START: seq<Input> := [StartGo(StartNew, true, true, 0), Begin(0, true, At(0, false))]

  /** Three rounds, the address declined after the first two. */
  const CONFLICTS: seq<Input> := AndDeclined(AndDeclined(START, 0), 1) + Round(2)

  predicate AtInit(c: Client, now: int, conflicts: nat) {
    InLoop(c) && c.st == Init && c.sent == 0 && c.timeout <= now && c.conflicts == conflicts
  }

  lemma {:induction false} RunSnoc(inputs: seq<Input>, i: Input)
    ensures Run(inputs + [i]) == Step(Run(inputs), i)
  {
    hide Step;
    assert (inputs + [i])[..|inputs|] == inputs;
  }

  lemma {:induction false} RoundEndsDeclined(inputs: seq<Input>, now: int, conflicts: nat)
    requires 0 <= now && AtInit(Run(inputs), now, conflicts)
    ensures var c := Run(inputs + Round(now));
            InLoop(c) && c.st == Declined && c.timeout <= now && c.conflicts == conflicts
  {
    var r := Round(now);
    hide Run, StartTimer, StopTimer, CloseAllRenewTimer, ScheduleLeaseTimers, TryCachedIp, Declining, SlowArpDetect;
    OfferAccepted(inputs, now, conflicts);
    var more := inputs + [r[0]] + [r[1]];
    RunSnoc(more, r[2]);
    RunSnoc(more + [r[2]], r[3]);
    RunSnoc(more + [r[2]] + [r[3]], r[4]);
    assert inputs + r == more + [r[2]] + [r[3]] + [r[4]];
    assert Pow2(0) == 1;
  }

  lemma {:induction false} OfferAccepted(inputs: seq<Input>, now: int, conflicts: nat)
    requires 0 <= now && AtInit(Run(inputs), now, conflicts)
    ensures var c := Run(inputs + [Round(now)[0]] + [Round(now)[1]]);
            && InLoop(c) && c.st == Requesting && c.sent == 0 && c.timeout <= now && c.conflicts == conflicts
            && c.transId == 7
  {
    var r := Round(now);
    hide Run, StartTimer, StopTimer, CloseAllRenewTimer, ScheduleLeaseTimers, Declining, SlowArpDetect;
    RunSnoc(inputs, r[0]);
    RunSnoc(inputs + [r[0]], r[1]);
    assert Pow2(0) == 1;
  }

  lemma {:induction false} ConflictRound(inputs: seq<Input>, now: int, conflicts: nat)
    requires 0 <= now && AtInit(Run(inputs), now, conflicts) && conflicts < MAX_CONFLICTS_COUNT
    ensures AtInit(Run(AndDeclined(inputs, now)), now + 1, conflicts + 1)
  {
    hide Run, Round;
    RoundEndsDeclined(inputs, now, conflicts);
    RunSnoc(inputs + Round(now), Timeout(At(now, false)));
  }

  lemma FirstInit()
    ensures AtInit(Run(START), 0, 0)
  {
    hide Run, StartTimer, StopTimer;
    var i0, i1 := StartGo(StartNew, true, true, 0), Begin(0, true, At(0, false));
    assert Run([]) == NEW_CLIENT by { RunOfNothing(); }
    RunSnoc([], i0);
    RunSnoc([i0], i1);
    assert [] + [i0] == [i0] && [i0] + [i1] == [i0, i1];
  }

  lemma RunOfNothing()
    ensures Run([]) == NEW_CLIENT
  {
  }

  /** The run declines its address twice and is about to meet the third conflict. */
  lemma ThirdConflictIsReached()
    ensures var c := Run(CONFLICTS);
            InLoop(c) && c.st == Declined && c.timeout <= 2 && c.conflicts == MAX_CONFLICTS_COUNT
  {
    hide Run, Round, AndDeclined;
    FirstInit();
    ConflictRound(START, 0, 0);
    ConflictRound(AndDeclined(START, 0), 1, 1);
    RoundEndsDeclined(AndDeclined(AndDeclined(START, 0), 1), 2, 2);
  }

  /** Its next timeout takes the client to BOUND with no lease timer armed. */
  lemma ThirdConflictArmsNothing()
    ensures var c := Run(CONFLICTS + [Timeout(At(2, false))]); c.st == Bound && LeaseTimersClosed(c.timers)
  {
    hide Run, Round, AndDeclined, StopTimer, LeaseTimersClosed, CONFLICTS;
    ThirdConflictIsReached();
    RunSnoc(CONFLICTS, Timeout(At(2, false)));
    BoundIsArmedIff(CONFLICTS, Timeout(At(2, false)));
  }
}
