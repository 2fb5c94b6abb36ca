/**
 The client's IPv4 state machine (section 4.4 of RFC 2131) as a function from a client
 record and an input to the next record. The record carries a log of what was sent,
 received, probed and published, so that claims about whole runs can be stated on it.
 */
module ClientMachine {
  import opened Wrappers
  import opened Words

  const TIMEOUT_TIMES_MAX := 15
  const MAX_WAIT_TIMES := 5
  const TIMEOUT_MORE_WAIT_SEC := 60
  const DHCP_FAILE_TIMEOUT_THR := 6
  const MAX_CONFLICTS_COUNT := 2
  const SLOW_ARP_DETECTION_TRY_CNT := 2
  const SLOW_ARP_TOTAL_TIME_S := 4
  const MAX_TIMEOUT_SEC := 6
  const DEFAULT_LEASE: u32 := 3600
  const USECOND_CONVERT := 1000

  datatype DhcpState =
    | Init | Selecting | Requesting | Bound | Renewing | Rebinding
    | InitReboot | Released | Renewed | FastArp | SlowArp | Declined

  datatype Action = StartNew | StartOld | RenewT1 | RenewT2 | RenewT3

  datatype TaskFlag = Idle | Running | StopRequested
  datatype Phase = NoTask | Posted | Looping

  /** What the client learns from an acknowledgement. `extra` stands for router, vendor and host fields. */
  datatype IpResult = IpResult(
    yiaddr: u32, leaseTime: u32, serverId: Option<u32>, subnet: Option<u32>, dns: seq<u32>, extra: seq<u8>)

  /** A cached record: a result, and when its lease ends. */
  datatype Cached = Cached(result: IpResult, end: int)

  const NO_RESULT := IpResult(0, 0, None, None, [], [])

  datatype MessageType = OfferType | AckType | NakType | OtherType

  /** A received packet: fixed fields and the options the client reads. */
  datatype Packet = Packet(
    xid: u32, yiaddr: u32, messageType: Option<MessageType>, leaseTime: Option<u32>,
    serverId: Option<u32>, subnet: Option<u32>, dns: seq<u32>, extra: seq<u8>)

  function ParseAck(p: Packet): IpResult {
    IpResult(p.yiaddr, LeaseOf(p), p.serverId, p.subnet, p.dns, p.extra)
  }

  function LeaseOf(p: Packet): u32 {
    match p.leaseTime
    case Some(t) => t
    case None => DEFAULT_LEASE
  }

  datatype Code = Success | Failed | TimedOut | Expired

  datatype Sent = DiscoverMsg | RequestMsg | RebootMsg | RenewMsg | RebindMsg | DeclineMsg

  datatype Event =
    | Began
    | Send(msg: Sent, xid: u32, ip: u32, server: u32)
    | Pause
    | AckParsed(packet: Packet, state: DhcpState, transId: u32)
    | DnsRead(cached: IpResult)
    | FastProbe(target: u32, answered: bool)
    | SlowProbe(target: u32, answered: bool)
    | Conflict
    | CacheRead(cached: IpResult)
    | Publish(code: Code, result: IpResult)

  // ----- Timers -----

  datatype Slot = GetIp | RenewDelay | RebindDelay | RemainingDelay | SlowArpTimer

  /** Timer ids by slot, 0 for none; `live` holds the created and not destroyed timers with their interval in ms. */
  datatype Timers = Timers(ids: map<Slot, nat>, live: map<nat, int>, created: nat)

  function IdOf(t: Timers, slot: Slot): nat {
    if slot in t.ids then t.ids[slot] else 0
  }

  function StartTimer(t: Timers, slot: Slot, interval: int): Timers {
    if IdOf(t, slot) != 0 then t
    else Timers(t.ids[slot := t.created + 1], t.live[t.created + 1 := interval], t.created + 1)
  }

  function StopTimer(t: Timers, slot: Slot): Timers {
    if IdOf(t, slot) == 0 then t
    else t.(ids := t.ids[slot := 0], live := t.live - {IdOf(t, slot)})
  }

  function CloseAllRenewTimer(t: Timers): Timers {
    StopTimer(StopTimer(StopTimer(t, RenewDelay), RebindDelay), RemainingDelay)
  }

  // ----- The client -----

  datatype Client = Client(
    st: DhcpState, resendTimer: nat, sent: nat, timeout: int, conflicts: nat,
    leaseTime: u32, renewalSec: u32, rebindSec: u32, renewalTimestamp: int, renewalTimestampBoot: int,
    requestedIp: u32, serverIp: u32, transId: u32, action: Action,
    flag: TaskFlag, phase: Phase, slowArpDetecting: bool, arpTarget: u32, result: IpResult,
    timers: Timers, log: seq<Event>)

  const NEW_CLIENT := Client(
    Init, 0, 0, 0, 0, 0, 0, 0, 0, 0, 0, 0, 0, StartNew, Idle, NoTask, false, 0, NO_RESULT,
    Timers(map[], map[], 0), [])

  /**
   What the environment answers while a handler runs: the clock, the time since boot, random
   numbers, the ARP probe, publication, the cached result if its use is allowed, and whether
   this is a PC on a specific network.
   */
  datatype Env = Env(
    now: int, boot: int, random: u32, arpAnswered: bool, publishOk: bool, ifaceOk: bool,
    cached: Option<Cached>, specificNetwork: bool, wlan: bool)

  function Log(c: Client, e: Event): Client {
    c.(log := c.log + [e])
  }

  function RenewalOf(lease: u32): u32 {
    lease / 2
  }

  function RebindOf(lease: u32): u32 {
    lease * 7 / 8
  }

  function StopIpv4(c: Client): Client {
    if c.flag == Running then
      c.(flag := StopRequested, slowArpDetecting := false, conflicts := 0,
         timers := StopTimer(StopTimer(c.timers, GetIp), SlowArpTimer))
    else c
  }

  /** Milliseconds until the lease is taken to have run out, `delay` seconds after it was obtained. */
  function RemainingMs(lease: u32, delay: int): int {
    (if lease < delay then lease else lease - delay) * USECOND_CONVERT
  }

  function LeaseDelay(c: Client, isCachedIp: bool, env: Env): int {
    var elapsed := if isCachedIp then env.now - c.renewalTimestamp else env.boot - c.renewalTimestampBoot;
    if elapsed < 0 then 0 else elapsed
  }

  function ScheduleLeaseTimers(c: Client, isCachedIp: bool, env: Env): Client {
    var remaining := RemainingMs(c.leaseTime, LeaseDelay(c, isCachedIp, env));
    var t := CloseAllRenewTimer(c.timers);
    var t1 := if env.specificNetwork
              then StartTimer(t, RenewDelay, remaining * 9 / 10)
              else StartTimer(StartTimer(t, RenewDelay, remaining / 2), RebindDelay, remaining * 7 / 8);
    c.(timers := StartTimer(t1, RemainingDelay, remaining))
  }

  function PublishResult(c: Client, r: IpResult, ok: bool): Client {
    Log(c, Publish(if ok then Success else Failed, r))
  }

  /** Seconds to wait for an answer to packet number `sent`. */
  function WaitSec(sent: nat): nat {
    Pow2(if sent > MAX_WAIT_TIMES then MAX_WAIT_TIMES else sent)
  }

  /** Publication dates the cached result with the current time, which the lease timers then start from. */
  function TryCachedIp(c: Client, env: Env): Client {
    match env.cached
    case None => c
    case Some(record) =>
      var r := record.result;
      var c1 := StopIpv4(PublishResult(Log(c, CacheRead(r)), r, env.publishOk));
      ScheduleLeaseTimers(
        c1.(leaseTime := r.leaseTime, renewalSec := RenewalOf(r.leaseTime), rebindSec := RebindOf(r.leaseTime),
            renewalTimestamp := env.now % WORD_SIZE), true, env)
  }

  function InitSelecting(c: Client, env: Env): Client {
    if c.sent > TIMEOUT_TIMES_MAX then
      Log(c, Pause).(timeout := env.now + TIMEOUT_MORE_WAIT_SEC, sent := 0)
    else
      var xid := if c.sent == 0 then env.random else c.transId;
      var wait := WaitSec(c.sent);
      var c1 := Log(c, Send(DiscoverMsg, xid, c.requestedIp, 0)).(transId := xid, st := Selecting);
      var c2 := if wait > DHCP_FAILE_TIMEOUT_THR && c.action != RenewT3 then TryCachedIp(c1, env) else c1;
      c2.(timeout := env.now + wait, sent := c.sent + 1)
  }

  function SendReboot(c: Client, target: u32, now: int): Client {
    if c.sent >= 2 then c.(st := Init, sent := 0, timeout := now)
    else
      Log(c, Send(RebootMsg, c.transId, target, 0))
        .(timeout := now + WaitSec(c.sent), requestedIp := target, sent := c.sent + 1)
  }

  function RequestAgain(c: Client, env: Env): Client {
    if c.sent > TIMEOUT_TIMES_MAX then c.(st := Init, sent := 0, timeout := env.now)
    else
      var wait := WaitSec(c.sent);
      var msg := if c.st == Renewed then RenewMsg else RequestMsg;
      var c1 := Log(c, Send(msg, c.transId, c.requestedIp, c.serverIp));
      var c2 := if wait > DHCP_FAILE_TIMEOUT_THR then TryCachedIp(c1, env) else c1;
      c2.(timeout := env.now + wait, sent := c.sent + 1)
  }

  function Renew(c: Client, env: Env): Client {
    var server := if c.st == Rebinding then 0 else c.serverIp;
    var msg := if c.st == Rebinding then RebindMsg else RenewMsg;
    Log(c, Send(msg, c.transId, c.requestedIp, server))
      .(timeout := env.now + WaitSec(c.sent), sent := c.sent + 1)
  }

  /** The lease is taken as it stands: renewal is due after `renewalSec`, and the task stops. */
  function EnterBound(c: Client, env: Env): Client {
    ScheduleLeaseTimers(
      StopIpv4(c.(st := Bound, sent := 0, resendTimer := 0, timeout := env.now + c.renewalSec)), false, env)
  }

  /** The third conflict of a task publishes the address all the same, and arms no lease timer. */
  function Declining(c: Client, env: Env): Client {
    var c1 := Log(c, Conflict);
    if c.conflicts + 1 > MAX_CONFLICTS_COUNT then
      StopIpv4(PublishResult(c1, c.result, env.publishOk).(conflicts := c.conflicts + 1))
        .(st := Bound, sent := 0, resendTimer := 0, timeout := env.now)
    else
      Log(c1, Send(DeclineMsg, c.transId, c.requestedIp, c.serverIp))
        .(conflicts := c.conflicts + 1, timeout := env.now + 1, st := Init, sent := 0)
  }

  function FastArpDetect(c: Client, env: Env): Client {
    var c1 := Log(c, FastProbe(c.arpTarget, env.arpAnswered));
    if env.arpAnswered then c1.(st := Declined)
    else if env.publishOk then PublishResult(c1, c.result, true).(st := SlowArp, slowArpDetecting := true)
    else StopIpv4(PublishResult(c1, c.result, false))
  }

  function SlowArpDetect(c: Client, env: Env): Client {
    var c1 := if c.sent > SLOW_ARP_DETECTION_TRY_CNT then EnterBound(c, env)
              else if c.sent == SLOW_ARP_DETECTION_TRY_CNT then
                c.(timeout := env.now + 2 * SLOW_ARP_TOTAL_TIME_S,
                   timers := StartTimer(c.timers, SlowArpTimer, SLOW_ARP_TOTAL_TIME_S * USECOND_CONVERT))
              else
                var c0 := Log(c, SlowProbe(c.arpTarget, env.arpAnswered));
                if env.arpAnswered then c0.(st := Declined, slowArpDetecting := false) else c0;
    c1.(sent := c1.sent + 1)
  }

  /** What the task does when its timeout has passed. */
  function DhcpRequestHandle(c: Client, env: Env): Client {
    match c.st
    case Init => InitSelecting(c, env)
    case Selecting => InitSelecting(c, env)
    case Requesting => RequestAgain(c, env)
    case Renewed => RequestAgain(c, env)
    case Bound => Renew(c.(st := Renewing), env)
    case Renewing => Renew(c, env)
    case Rebinding => Renew(c, env)
    case InitReboot => SendReboot(c, c.requestedIp, env.now)
    case Released => c.(timeout := 0x7FFF_FFFF)
    case FastArp => FastArpDetect(c, env)
    case SlowArp => SlowArpDetect(c, env)
    case Declined => Declining(c, env)
  }

  // ----- Packets -----

  /** On wlan every matching OFFER overwrites the requested and server address, in any state. */
  function GetDhcpOffer(c: Client, p: Packet, env: Env): Client {
    if !env.wlan || p.messageType != Some(OfferType) then c
    else c.(requestedIp := p.yiaddr, serverIp := if p.serverId.Some? then p.serverId.value else c.serverIp)
  }

  function AfterNak(c: Client, env: Env): Client {
    c.(result := NO_RESULT, st := Init, requestedIp := 0, sent := 0, timeout := env.now,
       resendTimer := if c.resendTimer == 0 then 1
                      else if 2 * c.resendTimer > MAX_TIMEOUT_SEC then MAX_TIMEOUT_SEC
                      else 2 * c.resendTimer)
  }

  function ParseDhcpAckPacket(c: Client, p: Packet, env: Env): Client {
    var lease := LeaseOf(p);
    Log(c, AckParsed(p, c.st, c.transId))
      .(leaseTime := lease, renewalSec := RenewalOf(lease), rebindSec := RebindOf(lease), requestedIp := p.yiaddr,
        serverIp := if p.serverId.Some? then p.serverId.value else c.serverIp,
        renewalTimestamp := env.now, renewalTimestampBoot := env.boot, result := ParseAck(p))
  }

  function AfterAck(c: Client, p: Packet, env: Env): Client {
    var c1 := ParseDhcpAckPacket(c, p, env);
    if !env.ifaceOk then c1
    else
      var c2 := c1.(timers := CloseAllRenewTimer(c1.timers));
      if c2.st == InitReboot && c2.result.dns == [] && env.cached.None? then c2
      else
        var c3 := if c2.st == InitReboot && c2.result.dns == []
                  then
                    var r := env.cached.value.result;
                    Log(c2, DnsRead(r)).(result := c2.result.(dns := r.dns))
                  else c2;
        if c3.st == Requesting || c3.st == InitReboot then
          c3.(sent := 0, timeout := 0, st := FastArp, arpTarget := c3.requestedIp)
        else if !env.publishOk then c3
        else EnterBound(PublishResult(c3, c3.result, true), env)
  }

  function DhcpAckOrNakPacketHandle(c: Client, p: Packet, env: Env): Client {
    if p.messageType == Some(NakType) then AfterNak(c, env)
    else if p.messageType == Some(AckType) then AfterAck(c, p, env)
    else if c.st == InitReboot then c.(st := Init, timeout := env.now)
    else c
  }

  function DhcpOfferPacketHandle(c: Client, p: Packet, env: Env): Client {
    if p.messageType != Some(OfferType) || p.serverId.None? then c
    else c.(transId := p.xid, requestedIp := p.yiaddr, serverIp := p.serverId.value,
            st := Requesting, sent := 0, timeout := env.now)
  }

  /** What the task does with a packet, or with a failed read. */
  function DhcpResponseHandle(c: Client, received: Option<Packet>, env: Env): Client {
    match received
    case None => if c.st == InitReboot then c.(st := Init, timeout := env.now) else c
    case Some(p) =>
      if p.xid != c.transId then c
      else
        var c1 := GetDhcpOffer(c, p, env);
        if p.messageType.None? then c1
        else if c1.st == Selecting then DhcpOfferPacketHandle(c1, p, env)
        else if c1.st in {Requesting, Renewing, Rebinding, InitReboot, Renewed}
        then DhcpAckOrNakPacketHandle(c1, p, env)
        else c1
  }

  // ----- Start, stop and timer callbacks -----

  function InitStartIpv4Thread(c: Client, postOk: bool): Client {
    if c.flag != Idle || !postOk then c else c.(flag := Running, phase := Posted)
  }

  function StartTask(c: Client, action: Action, configOk: bool, postOk: bool, getIpTimeout: int): Client {
    var c1 := c.(action := action, timers := StartTimer(StopTimer(c.timers, GetIp), GetIp, getIpTimeout));
    if !configOk then c1
    else if action == StartNew || action == StartOld
    then InitStartIpv4Thread(c1.(slowArpDetecting := false), postOk)
    else c1.(slowArpDetecting := false)
  }

  /** T1 and T2: the running task is asked to stop, and a new one is posted if none is left. */
  function RenewCallback(c: Client, t2: bool, configOk: bool, postOk: bool, getIpTimeout: int): Client {
    var c1 := StopIpv4(c.(timers := StopTimer(c.timers, if t2 then RebindDelay else RenewDelay)));
    var c2 := c1.(action := if t2 then RenewT2 else RenewT1,
                  slowArpDetecting := if configOk then false else c1.slowArpDetecting,
                  timers := StartTimer(c1.timers, GetIp, getIpTimeout),
                  st := if t2 then Rebinding else Renewing, sent := 0, timeout := 0);
    InitStartIpv4Thread(c2, postOk)
  }

  function ExpireCallback(c: Client): Client {
    var c1 := StopIpv4(c);
    Log(c1.(timers := CloseAllRenewTimer(c1.timers), action := RenewT3), Publish(Expired, NO_RESULT))
  }

  function GetIpTimerCallback(c: Client): Client {
    if c.flag != Running then c
    else
      var c1 := StopIpv4(c.(timers := StopTimer(c.timers, GetIp)));
      match c.action
      case RenewT1 => c1
      case RenewT2 => c1
      case RenewT3 => Log(c1, Publish(Expired, NO_RESULT))
      case _ => Log(c1, Publish(TimedOut, NO_RESULT))
  }

  function SlowArpDetectCallback(c: Client, reachable: bool, env: Env): Client {
    if !c.slowArpDetecting then c
    else
      var c1 := Log(c, SlowProbe(c.arpTarget, reachable));
      var c2 := if reachable
                then c1.(st := Declined, timeout := 0, timers := StopTimer(c1.timers, SlowArpTimer))
                else EnterBound(c1, env);
      c2.(slowArpDetecting := false)
  }

  function SlowArpTimeoutCallback(c: Client, env: Env): Client {
    if !c.slowArpDetecting then c else EnterBound(c, env)
  }

  predicate IsRenewal(a: Action) {
    a == RenewT1 || a == RenewT2 || a == RenewT3
  }

  /** `DhcpInit`: from scratch, and straight to INIT-REBOOT if an unexpired address is cached for this network. */
  function DhcpInit(c: Client, cachedIp: u32, env: Env): Client {
    var c1 := c.(st := Init, resendTimer := 0, sent := 0, timeout := 0, conflicts := 0);
    if cachedIp == 0 then c1
    else SendReboot(c1.(transId := env.random, st := InitReboot), cachedIp, env.now)
  }

  function BeginTask(c: Client, cachedIp: u32, socketsOk: bool, env: Env): Client {
    var c1 := Log(c, Began);
    var c2 := if IsRenewal(c1.action) then c1 else DhcpInit(c1, cachedIp, env);
    if socketsOk then c2.(phase := Looping) else c2.(phase := NoTask, flag := Idle)
  }

  // ----- Inputs and runs -----

  datatype Input =
    | StartStop
    | StartGo(action: Action, configOk: bool, postOk: bool, getIpTimeout: int)
    | Stop
    | Begin(cachedIp: u32, socketsOk: bool, env: Env)
    | Exit
    | Timeout(env: Env)
    | Receive(packet: Option<Packet>, env: Env)
    | ArpDone(reachable: bool, env: Env)
    | ArpTimeout(env: Env)
    | T1(configOk: bool, postOk: bool, getIpTimeout: int)
    | T2(configOk: bool, postOk: bool, getIpTimeout: int)
    | T3
    | GetIpTimeout

  predicate InLoop(c: Client) {
    c.phase == Looping && c.flag == Running
  }

  /** One input; inputs to a task that is not there leave the client alone. */
  function Step(c: Client, i: Input): Client {
    match i
    case StartStop => if c.flag == Idle then c else StopIpv4(c.(timers := CloseAllRenewTimer(c.timers)))
    case StartGo(action, configOk, postOk, t) => StartTask(c, action, configOk, postOk, t)
    case Stop => StopIpv4(c.(timers := CloseAllRenewTimer(c.timers)))
    case Begin(cachedIp, socketsOk, env) => if c.phase == Posted then BeginTask(c, cachedIp, socketsOk, env) else c
    case Exit => if c.phase == Looping && c.flag != Running then c.(phase := NoTask, flag := Idle) else c
    case Timeout(env) => if InLoop(c) && c.timeout <= env.now then DhcpRequestHandle(c, env) else c
    case Receive(p, env) => if InLoop(c) && c.timeout > env.now then DhcpResponseHandle(c, p, env) else c
    case ArpDone(reachable, env) => SlowArpDetectCallback(c, reachable, env)
    case ArpTimeout(env) => SlowArpTimeoutCallback(c, env)
    case T1(configOk, postOk, t) => RenewCallback(c, false, configOk, postOk, t)
    case T2(configOk, postOk, t) => RenewCallback(c, true, configOk, postOk, t)
    case T3 => ExpireCallback(c)
    case GetIpTimeout => GetIpTimerCallback(c)
  }

  function Run(inputs: seq<Input>): Client {
    if inputs == [] then NEW_CLIENT
    else Step(Run(inputs[..|inputs| - 1]), inputs[|inputs| - 1])
  }
}
