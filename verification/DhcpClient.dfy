/**
 The client state machine as an object: its handlers update the fields in place, and each
 is proved to take the object exactly where its function in `ClientMachine` says.
 */
module DhcpClient {
  import opened Wrappers
  import opened Words
  import opened ClientMachine
  import opened ClientRuns
  import opened ClientTiming

  /** The counters and deadline of retransmission. */
  datatype Retry = Retry(resendTimer: nat, sent: nat, timeout: int, conflicts: nat)

  /** The times of the current lease. */
  datatype Lease = Lease(
    leaseTime: u32, renewalSec: u32, rebindSec: u32, renewalTimestamp: int, renewalTimestampBoot: int)

  /** The addresses and transaction in use with a server. */
  datatype Peer = Peer(requestedIp: u32, serverIp: u32, transID: u32)

  datatype Task = Task(action: Action, state: TaskFlag, phase: Phase)

  class StateMachine {
    var st: DhcpState
    var retry: Retry
    var lease: Lease
    var peer: Peer
    var task: Task
    var slowArpDetecting: bool
    var arpDetectionTargetIp: u32
    var ipResult: IpResult
    var timers: Timers
    ghost var log: seq<Event>

    ghost function State(): Client
      reads this
    {
      Client(st, retry.resendTimer, retry.sent, retry.timeout, retry.conflicts,
             lease.leaseTime, lease.renewalSec, lease.rebindSec, lease.renewalTimestamp, lease.renewalTimestampBoot,
             peer.requestedIp, peer.serverIp, peer.transID, task.action, task.state, task.phase,
             slowArpDetecting, arpDetectionTargetIp, ipResult, timers, log)
    }

    constructor ()
      ensures State() == NEW_CLIENT && Inv(State()) && TimerInv(State())
    {
      st, retry, lease := Init, Retry(0, 0, 0, 0), Lease(0, 0, 0, 0, 0);
      peer, task := Peer(0, 0, 0), Task(StartNew, Idle, NoTask);
      slowArpDetecting, arpDetectionTargetIp := false, 0;
      ipResult, timers, log := NO_RESULT, Timers(map[], map[], 0), [];
      new;
      NewClientOk();
      NewClientTimers();
    }

    method StopIpv4()
      modifies this`task, this`slowArpDetecting, this`retry, this`timers
      ensures State() == ClientMachine.StopIpv4(old(State()))
    {
      hide StopTimer;
      if task.state == Running {
        task := task.(state := StopRequested);
        slowArpDetecting := false;
        retry := retry.(conflicts := 0);
        timers := StopTimer(timers, GetIp);
        timers := StopTimer(timers, SlowArpTimer);
      }
    }

    method ScheduleLeaseTimers(isCachedIp: bool, env: Env)
      modifies this`timers
      ensures State() == ClientMachine.ScheduleLeaseTimers(old(State()), isCachedIp, env)
    {
      hide StopTimer, StartTimer;
      var delay: int;
      if isCachedIp {
        delay := if env.now < lease.renewalTimestamp then 0 else env.now - lease.renewalTimestamp;
      } else {
        delay := if env.boot < lease.renewalTimestampBoot then 0 else env.boot - lease.renewalTimestampBoot;
      }
      var remaining := (if lease.leaseTime < delay then lease.leaseTime else lease.leaseTime - delay) * USECOND_CONVERT;
      timers := StopTimer(timers, RenewDelay);
      timers := StopTimer(timers, RebindDelay);
      timers := StopTimer(timers, RemainingDelay);
      if env.specificNetwork {
        timers := StartTimer(timers, RenewDelay, remaining * 9 / 10);
      } else {
        timers := StartTimer(timers, RenewDelay, remaining / 2);
        timers := StartTimer(timers, RebindDelay, remaining * 7 / 8);
      }
      timers := StartTimer(timers, RemainingDelay, remaining);
    }

    method PublishDhcpResultEvent(r: IpResult, ok: bool)
      modifies this`log
      ensures State() == PublishResult(old(State()), r, ok)
    {
      log := log + [Publish(if ok then Success else Failed, r)];
    }

    method TryCachedIp(env: Env)
      modifies this
      ensures State() == ClientMachine.TryCachedIp(old(State()), env)
    {
      hide ClientMachine.ScheduleLeaseTimers, ClientMachine.StopIpv4, PublishResult;
      if env.cached.None? {
        return;
      }
      var r := env.cached.value.result;
      log := log + [CacheRead(r)];
      PublishDhcpResultEvent(r, env.publishOk);
      StopIpv4();
      lease := lease.(leaseTime := r.leaseTime, renewalSec := RenewalOf(r.leaseTime),
                      rebindSec := RebindOf(r.leaseTime), renewalTimestamp := env.now % WORD_SIZE);
      ScheduleLeaseTimers(true, env);
    }

    method InitSelecting(env: Env)
      modifies this
      ensures State() == ClientMachine.InitSelecting(old(State()), env)
    {
      hide ClientMachine.TryCachedIp, WaitSec;
      if retry.sent > TIMEOUT_TIMES_MAX {
        retry := retry.(timeout := env.now + TIMEOUT_MORE_WAIT_SEC, sent := 0);
        log := log + [Pause];
        return;
      }
      if retry.sent == 0 {
        peer := peer.(transID := env.random);
      }
      log := log + [Send(DiscoverMsg, peer.transID, peer.requestedIp, 0)];
      st := Selecting;
      var sent, timeoutSec := retry.sent, WaitSec(retry.sent);
      if timeoutSec > DHCP_FAILE_TIMEOUT_THR && task.action != RenewT3 {
        TryCachedIp(env);
      }
      retry := retry.(timeout := env.now + timeoutSec, sent := sent + 1);
    }

    method SendReboot(target: u32, now: int)
      modifies this
      ensures State() == ClientMachine.SendReboot(old(State()), target, now)
    {
      hide WaitSec;
      if retry.sent >= 2 {
        st := Init;
        retry := retry.(sent := 0, timeout := now);
        return;
      }
      retry := retry.(timeout := now + WaitSec(retry.sent));
      peer := peer.(requestedIp := target);
      log := log + [Send(RebootMsg, peer.transID, peer.requestedIp, 0)];
      retry := retry.(sent := retry.sent + 1);
    }

    method RequestingOrRenewed(env: Env)
      modifies this
      ensures State() == RequestAgain(old(State()), env)
    {
      hide ClientMachine.TryCachedIp, WaitSec;
      if retry.sent > TIMEOUT_TIMES_MAX {
        st := Init;
        retry := retry.(sent := 0, timeout := env.now);
        return;
      }
      if st == Renewed {
        log := log + [Send(RenewMsg, peer.transID, peer.requestedIp, peer.serverIp)];
      } else {
        log := log + [Send(RequestMsg, peer.transID, peer.requestedIp, peer.serverIp)];
      }
      var sent, timeoutSec := retry.sent, WaitSec(retry.sent);
      if timeoutSec > DHCP_FAILE_TIMEOUT_THR {
        TryCachedIp(env);
      }
      retry := retry.(timeout := env.now + timeoutSec, sent := sent + 1);
    }

    method RenewingOrRebinding(env: Env)
      modifies this
      ensures State() == Renew(old(State()), env)
    {
      hide WaitSec;
      if st == Rebinding {
        log := log + [Send(RebindMsg, peer.transID, peer.requestedIp, 0)];
      } else {
        log := log + [Send(RenewMsg, peer.transID, peer.requestedIp, peer.serverIp)];
      }
      retry := retry.(timeout := env.now + WaitSec(retry.sent));
      retry := retry.(sent := retry.sent + 1);
    }

    method EnterBound(env: Env)
      modifies this
      ensures State() == ClientMachine.EnterBound(old(State()), env)
    {
      hide ClientMachine.ScheduleLeaseTimers, ClientMachine.StopIpv4;
      st := Bound;
      retry := retry.(sent := 0, resendTimer := 0, timeout := env.now + lease.renewalSec);
      StopIpv4();
      ScheduleLeaseTimers(false, env);
    }

    method Declining(env: Env)
      modifies this
      ensures State() == ClientMachine.Declining(old(State()), env)
    {
      hide ClientMachine.StopIpv4, PublishResult;
      log := log + [Conflict];
      retry := retry.(conflicts := retry.conflicts + 1);
      if retry.conflicts > MAX_CONFLICTS_COUNT {
        ghost var c1 := Log(old(State()), Conflict);
        PublishDhcpResultEvent(ipResult, env.publishOk);
        assert State() == PublishResult(c1, c1.result, env.publishOk).(conflicts := old(retry.conflicts) + 1) by {
          PublishKeepsFields(c1, c1.(conflicts := old(retry.conflicts) + 1), ipResult, env.publishOk);
        }
        StopIpv4();
        st := Bound;
        retry := retry.(sent := 0, resendTimer := 0, timeout := env.now);
        return;
      }
      retry := retry.(timeout := env.now + 1);
      log := log + [Send(DeclineMsg, peer.transID, peer.requestedIp, peer.serverIp)];
      st := Init;
      retry := retry.(sent := 0);
    }

    lemma PublishKeepsFields(c: Client, d: Client, r: IpResult, ok: bool)
      requires d == c.(conflicts := d.conflicts)
      ensures PublishResult(d, r, ok) == PublishResult(c, r, ok).(conflicts := d.conflicts)
    {
    }

    method FastArpDetect(env: Env)
      modifies this
      ensures State() == ClientMachine.FastArpDetect(old(State()), env)
    {
      hide ClientMachine.StopIpv4, PublishResult;
      log := log + [FastProbe(arpDetectionTargetIp, env.arpAnswered)];
      if env.arpAnswered {
        st := Declined;
        return;
      }
      PublishDhcpResultEvent(ipResult, env.publishOk);
      if !env.publishOk {
        StopIpv4();
        return;
      }
      st := SlowArp;
      slowArpDetecting := true;
    }

    method SlowArpDetect(env: Env)
      modifies this
      ensures State() == ClientMachine.SlowArpDetect(old(State()), env)
    {
      hide ClientMachine.EnterBound, StartTimer;
      if retry.sent > SLOW_ARP_DETECTION_TRY_CNT {
        EnterBound(env);
      } else if retry.sent == SLOW_ARP_DETECTION_TRY_CNT {
        retry := retry.(timeout := SLOW_ARP_TOTAL_TIME_S + SLOW_ARP_TOTAL_TIME_S + env.now);
        timers := StartTimer(timers, SlowArpTimer, SLOW_ARP_TOTAL_TIME_S * USECOND_CONVERT);
      } else {
        log := log + [SlowProbe(arpDetectionTargetIp, env.arpAnswered)];
        if env.arpAnswered {
          st := Declined;
          slowArpDetecting := false;
        }
      }
      retry := retry.(sent := retry.sent + 1);
    }

    method DhcpRequestHandle(env: Env)
      modifies this
      ensures State() == ClientMachine.DhcpRequestHandle(old(State()), env)
    {
      hide ClientMachine.InitSelecting, RequestAgain, Renew, ClientMachine.SendReboot, ClientMachine.FastArpDetect,
        ClientMachine.SlowArpDetect, ClientMachine.Declining;
      match st {
        case Init => InitSelecting(env);
        case Selecting => InitSelecting(env);
        case Requesting => RequestingOrRenewed(env);
        case Renewed => RequestingOrRenewed(env);
        case Bound =>
          st := Renewing;
          RenewingOrRebinding(env);
        case Renewing => RenewingOrRebinding(env);
        case Rebinding => RenewingOrRebinding(env);
        case InitReboot => SendReboot(peer.requestedIp, env.now);
        case Released => retry := retry.(timeout := 0x7FFF_FFFF);
        case FastArp => FastArpDetect(env);
        case SlowArp => SlowArpDetect(env);
        case Declined => Declining(env);
      }
    }

    method ParseDhcpNakPacket(env: Env)
      modifies this
      ensures State() == AfterNak(old(State()), env)
    {
      ipResult := NO_RESULT;
      st := Init;
      peer := peer.(requestedIp := 0);
      retry := retry.(sent := 0, timeout := env.now);
      if retry.resendTimer == 0 {
        retry := retry.(resendTimer := 1);
      } else {
        retry := retry.(resendTimer := retry.resendTimer * 2);
        if retry.resendTimer > MAX_TIMEOUT_SEC {
          retry := retry.(resendTimer := MAX_TIMEOUT_SEC);
        }
      }
    }

    method ParseDhcpAckPacket(p: Packet, env: Env)
      modifies this
      ensures State() == ClientMachine.ParseDhcpAckPacket(old(State()), p, env)
    {
      log := log + [AckParsed(p, st, peer.transID)];
      lease := lease.(leaseTime := DEFAULT_LEASE);
      peer := peer.(requestedIp := p.yiaddr);
      if p.leaseTime.Some? {
        lease := lease.(leaseTime := p.leaseTime.value);
      }
      lease := lease.(renewalSec := RenewalOf(lease.leaseTime), rebindSec := RebindOf(lease.leaseTime),
                      renewalTimestamp := env.now, renewalTimestampBoot := env.boot);
      if p.serverId.Some? {
        peer := peer.(serverIp := p.serverId.value);
      }
      ipResult := IpResult(peer.requestedIp, lease.leaseTime, p.serverId, p.subnet, p.dns, p.extra);
    }

    method DhcpAckOrNakPacketHandle(p: Packet, env: Env)
      modifies this
      ensures State() == ClientMachine.DhcpAckOrNakPacketHandle(old(State()), p, env)
    {
      hide AfterNak, ClientMachine.AfterAck;
      if p.messageType != Some(AckType) && p.messageType != Some(NakType) {
        if st == InitReboot {
          st := Init;
          retry := retry.(timeout := env.now);
        }
        return;
      }
      if p.messageType == Some(NakType) {
        ParseDhcpNakPacket(env);
        return;
      }
      AfterAck(p, env);
    }

    /** The rest of the handler, from the parsing of the acknowledgement on. */
    method AfterAck(p: Packet, env: Env)
      modifies this
      ensures State() == ClientMachine.AfterAck(old(State()), p, env)
    {
      hide ClientMachine.EnterBound, CloseAllRenewTimer, ClientMachine.ParseDhcpAckPacket, PublishResult;
      ParseDhcpAckPacket(p, env);
      if !env.ifaceOk {
        return;
      }
      timers := CloseAllRenewTimer(timers);
      if st == InitReboot && ipResult.dns == [] {
        if env.cached.None? {
          return;
        }
        log := log + [DnsRead(env.cached.value.result)];
        ipResult := ipResult.(dns := env.cached.value.result.dns);
      }
      if st == Requesting || st == InitReboot {
        retry := retry.(sent := 0, timeout := 0);
        st := FastArp;
        arpDetectionTargetIp := peer.requestedIp;
        return;
      }
      if !env.publishOk {
        return;
      }
      PublishDhcpResultEvent(ipResult, true);
      EnterBound(env);
    }

    method DhcpOfferPacketHandle(p: Packet, env: Env)
      modifies this
      ensures State() == ClientMachine.DhcpOfferPacketHandle(old(State()), p, env)
    {
      if p.messageType != Some(OfferType) || p.serverId.None? {
        return;
      }
      peer := peer.(transID := p.xid, requestedIp := p.yiaddr, serverIp := p.serverId.value);
      st := Requesting;
      retry := retry.(sent := 0, timeout := env.now);
    }

    method DhcpResponseHandle(received: Option<Packet>, env: Env)
      modifies this
      ensures State() == ClientMachine.DhcpResponseHandle(old(State()), received, env)
    {
      hide ClientMachine.DhcpAckOrNakPacketHandle, ClientMachine.DhcpOfferPacketHandle;
      if received.None? {
        if st == InitReboot {
          st := Init;
          retry := retry.(timeout := env.now);
        }
        return;
      }
      var p := received.value;
      if p.xid != peer.transID {
        return;
      }
      if env.wlan && p.messageType == Some(OfferType) {
        peer := peer.(requestedIp := p.yiaddr);
        if p.serverId.Some? {
          peer := peer.(serverIp := p.serverId.value);
        }
      }
      if p.messageType.None? {
        return;
      }
      match st {
        case Selecting => DhcpOfferPacketHandle(p, env);
        case Requesting => DhcpAckOrNakPacketHandle(p, env);
        case Renewing => DhcpAckOrNakPacketHandle(p, env);
        case Rebinding => DhcpAckOrNakPacketHandle(p, env);
        case InitReboot => DhcpAckOrNakPacketHandle(p, env);
        case Renewed => DhcpAckOrNakPacketHandle(p, env);
        case _ =>
      }
    }

    method SlowArpDetectCallback(reachable: bool, env: Env)
      modifies this
      ensures State() == ClientMachine.SlowArpDetectCallback(old(State()), reachable, env)
    {
      hide ClientMachine.EnterBound, StopTimer;
      if !slowArpDetecting {
        return;
      }
      log := log + [SlowProbe(arpDetectionTargetIp, reachable)];
      if reachable {
        st := Declined;
        retry := retry.(timeout := 0);
        timers := StopTimer(timers, SlowArpTimer);
      } else {
        EnterBound(env);
      }
      slowArpDetecting := false;
    }

    method SlowArpTimeoutCallback(env: Env)
      modifies this
      ensures State() == ClientMachine.SlowArpTimeoutCallback(old(State()), env)
    {
      hide ClientMachine.EnterBound;
      if !slowArpDetecting {
        return;
      }
      EnterBound(env);
    }

    method InitStartIpv4Thread(postOk: bool)
      modifies this`task
      ensures State() == ClientMachine.InitStartIpv4Thread(old(State()), postOk)
    {
      if task.state != Idle {
        return;
      }
      task := task.(state := Running);
      if !postOk {
        task := task.(state := Idle);
        return;
      }
      task := task.(phase := Posted);
    }

    method StartIpv4Type(start: Action, configOk: bool, postOk: bool, getIpTimeout: int)
      modifies this
      ensures State() == StartTask(old(State()), start, configOk, postOk, getIpTimeout)
    {
      hide StopTimer, StartTimer, ClientMachine.InitStartIpv4Thread;
      task := task.(action := start);
      timers := StopTimer(timers, GetIp);
      timers := StartTimer(timers, GetIp, getIpTimeout);
      if !configOk {
        return;
      }
      slowArpDetecting := false;
      if task.action == StartNew || task.action == StartOld {
        InitStartIpv4Thread(postOk);
      }
    }

    method RenewOrRebindDelayCallback(t2: bool, configOk: bool, postOk: bool, getIpTimeout: int)
      modifies this
      ensures State() == RenewCallback(old(State()), t2, configOk, postOk, getIpTimeout)
    {
      hide StopTimer, StartTimer, ClientMachine.InitStartIpv4Thread, ClientMachine.StopIpv4;
      timers := StopTimer(timers, if t2 then RebindDelay else RenewDelay);
      StopIpv4();
      task := task.(action := if t2 then RenewT2 else RenewT1);
      if configOk {
        slowArpDetecting := false;
      }
      timers := StartTimer(timers, GetIp, getIpTimeout);
      st := if t2 then Rebinding else Renewing;
      retry := retry.(sent := 0, timeout := 0);
      InitStartIpv4Thread(postOk);
    }

    method RemainingDelayCallback()
      modifies this
      ensures State() == ExpireCallback(old(State()))
    {
      hide CloseAllRenewTimer, ClientMachine.StopIpv4;
      StopIpv4();
      timers := CloseAllRenewTimer(timers);
      task := task.(action := RenewT3);
      log := log + [Publish(Expired, NO_RESULT)];
    }

    method GetIpTimerCallback()
      modifies this
      ensures State() == ClientMachine.GetIpTimerCallback(old(State()))
    {
      hide StopTimer, ClientMachine.StopIpv4;
      if task.state != Running {
        return;
      }
      var mode := task.action;
      timers := StopTimer(timers, GetIp);
      StopIpv4();
      match mode {
        case RenewT1 =>
        case RenewT2 =>
        case RenewT3 => log := log + [Publish(Expired, NO_RESULT)];
        case _ => log := log + [Publish(TimedOut, NO_RESULT)];
      }
    }

    method StartIpv4(cachedIp: u32, socketsOk: bool, env: Env)
      modifies this
      ensures State() == BeginTask(old(State()), cachedIp, socketsOk, env)
    {
      hide ClientMachine.SendReboot;
      log := log + [Began];
      if !IsRenewal(task.action) {
        st, retry := Init, Retry(0, 0, 0, 0);
        if cachedIp != 0 {
          peer := peer.(transID := env.random);
          st := InitReboot;
          SendReboot(cachedIp, env.now);
        }
      }
      if socketsOk {
        task := task.(phase := Looping);
      } else {
        task := task.(phase := NoTask, state := Idle);
      }
    }

    /** Any input, in any order: the object follows the machine, so everything proved of runs holds of it. */
    method Handle(i: Input)
      requires Inv(State()) && TimerInv(State())
      modifies this
      ensures State() == Step(old(State()), i)
      ensures Inv(State()) && TimerInv(State())
    {
      hide Inv, TimerInv, ClientMachine.DhcpRequestHandle, ClientMachine.DhcpResponseHandle,
        ClientMachine.SlowArpDetectCallback, ClientMachine.SlowArpTimeoutCallback, BeginTask, StartTask, RenewCallback,
        ExpireCallback, ClientMachine.GetIpTimerCallback, ClientMachine.StopIpv4, CloseAllRenewTimer;
      StepKeepsInv(State(), i);
      InvGivesTaskOk(State());
      StepKeepsTimers(State(), i);
      match i {
        case StartStop =>
          if task.state != Idle {
            timers := CloseAllRenewTimer(timers);
            StopIpv4();
          }
        case StartGo(start, configOk, postOk, t) => StartIpv4Type(start, configOk, postOk, t);
        case Stop =>
          timers := CloseAllRenewTimer(timers);
          StopIpv4();
        case Begin(cachedIp, socketsOk, env) =>
          if task.phase == Posted {
            StartIpv4(cachedIp, socketsOk, env);
          }
        case Exit =>
          if task.phase == Looping && task.state != Running {
            task := task.(phase := NoTask, state := Idle);
          }
        case Timeout(env) =>
          if task.phase == Looping && task.state == Running && retry.timeout <= env.now {
            DhcpRequestHandle(env);
          }
        case Receive(p, env) =>
          if task.phase == Looping && task.state == Running && retry.timeout > env.now {
            DhcpResponseHandle(p, env);
          }
        case ArpDone(reachable, env) => SlowArpDetectCallback(reachable, env);
        case ArpTimeout(env) => SlowArpTimeoutCallback(env);
        case T1(configOk, postOk, t) => RenewOrRebindDelayCallback(false, configOk, postOk, t);
        case T2(configOk, postOk, t) => RenewOrRebindDelayCallback(true, configOk, postOk, t);
        case T3 => RemainingDelayCallback();
        case GetIpTimeout => GetIpTimerCallback();
      }
    }
  }
}
