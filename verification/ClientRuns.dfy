/**
 What every run of the client state machine keeps: where published results come from, and
 how often messages are repeated.
 */
module ClientRuns {
  import opened Wrappers
  import opened Words
  import opened ClientMachine

  // ----- Counting within the current task -----

  datatype Tally = Reboots | Declines | Conflicts

  predicate Counts(tally: Tally, e: Event) {
    match tally
    case Reboots => e.Send? && e.msg == RebootMsg
    case Declines => e.Send? && e.msg == DeclineMsg
    case Conflicts => e.Conflict?
  }

  /** How many such events the log holds since the current task began. */
  function InTask(log: seq<Event>, tally: Tally): nat {
    if log == [] || log[|log| - 1].Began? then 0
    else InTask(log[..|log| - 1], tally) + if Counts(tally, log[|log| - 1]) then 1 else 0
  }

  lemma {:induction false} InTaskAppend(log: seq<Event>, e: Event, tally: Tally)
    ensures InTask(log + [e], tally) ==
            if e.Began? then 0 else InTask(log, tally) + if Counts(tally, e) then 1 else 0
  {
    assert (log + [e])[..|log|] == log;
  }

  // ----- Where a result comes from -----

  predicate NeedsProbe(s: DhcpState) {
    s == Requesting || s == InitReboot
  }

  /** An acknowledgement without name servers leaves a rebooting client with those of its cached record. */
  predicate NeedsDns(p: Packet, s: DhcpState) {
    s == InitReboot && p.dns == []
  }

  /**
   Event `j` is the last acknowledgement before `i`, it answered the current transaction, and it
   says `r`: with the name servers of the cached record read next, if it needs them.
   */
  predicate LastAckSays(log: seq<Event>, j: nat, i: nat, r: IpResult)
    requires i <= |log|
  {
    && j < i && log[j].AckParsed?
    && log[j].packet.xid == log[j].transId
    && (if NeedsDns(log[j].packet, log[j].state)
        then j + 1 < i && log[j + 1].DnsRead? && r == ParseAck(log[j].packet).(dns := log[j + 1].cached.dns)
        else r == ParseAck(log[j].packet))
    && (forall k :: j < k < i ==> !log[k].AckParsed?)
  }

  /** A new address is published right after an unanswered fast probe of it, or at the third conflict. */
  predicate Cleared(log: seq<Event>, i: nat, r: IpResult)
    requires 0 < i <= |log|
  {
    || log[i - 1] == FastProbe(r.yiaddr, false)
    || (log[i - 1].Conflict? && InTask(log[..i], Conflicts) == MAX_CONFLICTS_COUNT + 1)
  }

  ghost predicate Justified(log: seq<Event>, i: nat)
    requires i < |log|
  {
    log[i].Publish? && log[i].code == Success ==>
      0 < i && (
        || log[i - 1] == CacheRead(log[i].result)
        || (exists j: nat | LastAckSays(log, j, i, log[i].result) ::
              NeedsProbe(log[j].state) ==> Cleared(log, i, log[i].result)))
  }

  ghost predicate AllJustified(log: seq<Event>) {
    forall i: nat | i < |log| :: Justified(log, i)
  }

  lemma JustifiedAppend(log: seq<Event>, e: Event)
    requires AllJustified(log)
    requires Justified(log + [e], |log|)
    ensures AllJustified(log + [e])
  {
    hide InTask, ParseAck;
    var log' := log + [e];
    forall i: nat | i < |log'|
      ensures Justified(log', i)
    {
      if i < |log| {
        assert Justified(log, i);
        assert log'[..i] == log[..i];
        if log[i].Publish? && log[i].code == Success && log[i - 1] != CacheRead(log[i].result) {
          var j: nat :| LastAckSays(log, j, i, log[i].result) &&
                        (NeedsProbe(log[j].state) ==> Cleared(log, i, log[i].result));
          assert LastAckSays(log', j, i, log'[i].result);
        }
      }
    }
  }

  /** The last acknowledgement in the log arrived where a probe is due, and says `r`. */
  ghost predicate HasAck(log: seq<Event>, r: IpResult) {
    exists j: nat | LastAckSays(log, j, |log|, r) :: NeedsProbe(log[j].state)
  }

  predicate IsSuccess(e: Event) {
    e.Publish? && e.code == Success
  }

  /** Appending any event but a success or an acknowledgement. */
  lemma AppendPlain(log: seq<Event>, e: Event)
    requires AllJustified(log) && !IsSuccess(e) && !e.AckParsed?
    ensures AllJustified(log + [e])
    ensures forall r: IpResult :: HasAck(log, r) ==> HasAck(log + [e], r)
  {
    hide InTask, ParseAck;
    JustifiedAppend(log, e);
    forall r: IpResult | HasAck(log, r)
      ensures HasAck(log + [e], r)
    {
      var j: nat :| LastAckSays(log, j, |log|, r) && NeedsProbe(log[j].state);
      assert LastAckSays(log + [e], j, |log + [e]|, r);
    }
  }

  /** Appending the publication of a result whose provenance the log shows. */
  lemma AppendSuccess(log: seq<Event>, r: IpResult)
    requires AllJustified(log) && log != []
    requires || log[|log| - 1] == CacheRead(r)
             || (HasAck(log, r) && Cleared(log, |log|, r))
    ensures AllJustified(log + [Publish(Success, r)])
    ensures forall q: IpResult :: HasAck(log, q) ==> HasAck(log + [Publish(Success, r)], q)
  {
    hide InTask, ParseAck;
    var e := Publish(Success, r);
    var log' := log + [e];
    assert log'[..|log|] == log;
    if log[|log| - 1] != CacheRead(r) {
      var j: nat :| LastAckSays(log, j, |log|, r) && NeedsProbe(log[j].state);
      assert LastAckSays(log', j, |log|, r);
      assert log[..|log|] == log;
      assert Cleared(log', |log|, r);
    }
    JustifiedAppend(log, e);
    forall q: IpResult | HasAck(log, q)
      ensures HasAck(log', q)
    {
      var j: nat :| LastAckSays(log, j, |log|, q) && NeedsProbe(log[j].state);
      assert LastAckSays(log', j, |log'|, q);
    }
  }

  /** Appending an acknowledgement: it becomes the last one. */
  lemma AppendAck(log: seq<Event>, p: Packet, s: DhcpState, transId: u32)
    requires AllJustified(log) && p.xid == transId
    ensures AllJustified(log + [AckParsed(p, s, transId)])
    ensures NeedsProbe(s) && !NeedsDns(p, s) ==> HasAck(log + [AckParsed(p, s, transId)], ParseAck(p))
  {
    hide InTask, ParseAck;
    var e := AckParsed(p, s, transId);
    JustifiedAppend(log, e);
    if NeedsProbe(s) && !NeedsDns(p, s) {
      assert LastAckSays(log + [e], |log|, |log| + 1, ParseAck(p));
    }
  }

  /** Appending the cached record whose name servers complete an acknowledgement. */
  lemma AppendDns(log: seq<Event>, p: Packet, s: DhcpState, transId: u32, cached: IpResult)
    requires AllJustified(log + [AckParsed(p, s, transId)]) && p.xid == transId && NeedsDns(p, s)
    ensures AllJustified(log + [AckParsed(p, s, transId)] + [DnsRead(cached)])
    ensures HasAck(log + [AckParsed(p, s, transId)] + [DnsRead(cached)], ParseAck(p).(dns := cached.dns))
  {
    hide InTask, ParseAck;
    var log1 := log + [AckParsed(p, s, transId)];
    AppendPlain(log1, DnsRead(cached));
    var log2 := log1 + [DnsRead(cached)];
    assert LastAckSays(log2, |log|, |log2|, ParseAck(p).(dns := cached.dns));
  }

  /** A renewed lease is published right after its acknowledgement. */
  lemma AppendRenewed(log: seq<Event>, p: Packet, s: DhcpState, transId: u32)
    requires AllJustified(log) && p.xid == transId && !NeedsProbe(s)
    ensures AllJustified(log + [AckParsed(p, s, transId)] + [Publish(Success, ParseAck(p))])
  {
    hide InTask, ParseAck;
    AppendAck(log, p, s, transId);
    var log1 := log + [AckParsed(p, s, transId)];
    var log2 := log1 + [Publish(Success, ParseAck(p))];
    assert LastAckSays(log2, |log|, |log1|, ParseAck(p));
    JustifiedAppend(log1, Publish(Success, ParseAck(p)));
  }

  // ----- The invariant -----

  predicate Probing(s: DhcpState) {
    s == FastArp || s == SlowArp || s == Declined
  }

  predicate SentBounded(c: Client) {
    match c.st
    case Init => c.sent <= TIMEOUT_TIMES_MAX + 1
    case Selecting => c.sent <= TIMEOUT_TIMES_MAX + 1
    case Requesting => c.sent <= TIMEOUT_TIMES_MAX + 1
    case Renewed => c.sent <= TIMEOUT_TIMES_MAX + 1
    case InitReboot => c.sent <= 2
    case FastArp => c.sent == 0
    case SlowArp => c.sent <= SLOW_ARP_DETECTION_TRY_CNT + 1
    case _ => true
  }

  predicate TaskOk(c: Client) {
    && (c.flag == Idle <==> c.phase == NoTask)
    && (c.slowArpDetecting ==> c.st == SlowArp && InLoop(c))
    && (!InLoop(c) ==> c.conflicts == 0)
  }

  predicate TalliesOk(c: Client) {
    && InTask(c.log, Reboots) <= 2 && InTask(c.log, Declines) <= MAX_CONFLICTS_COUNT
    && (InLoop(c) ==> c.conflicts == InTask(c.log, Conflicts) == InTask(c.log, Declines))
    && (InLoop(c) && c.st == InitReboot ==> InTask(c.log, Reboots) <= c.sent)
  }

  ghost predicate ResultOk(c: Client) {
    && AllJustified(c.log)
    && (Probing(c.st) ==> HasAck(c.log, c.result) && c.arpTarget == c.result.yiaddr)
  }

  predicate LeaseOk(c: Client) {
    c.renewalSec == RenewalOf(c.leaseTime) && c.rebindSec == RebindOf(c.leaseTime)
  }

  predicate ResendOk(c: Client) {
    c.resendTimer in {0, 1, 2, 4, 6}
  }

  ghost predicate Inv(c: Client) {
    TaskOk(c) && TalliesOk(c) && ResultOk(c) && SentBounded(c) && LeaseOk(c) && ResendOk(c)
  }

  /** An event that counts for nothing and publishes nothing. */
  predicate Quiet(e: Event) {
    !IsSuccess(e) && !e.AckParsed? && !e.Began? && !Counts(Reboots, e) && !Counts(Declines, e) && !Counts(Conflicts, e)
  }

  lemma LogQuiet(c: Client, e: Event)
    requires Inv(c) && Quiet(e)
    ensures Inv(Log(c, e))
    ensures forall t: Tally :: InTask(Log(c, e).log, t) == InTask(c.log, t)
  {
    hide AllJustified, HasAck, InTask;
    AppendPlain(c.log, e);
    forall t: Tally
      ensures InTask(Log(c, e).log, t) == InTask(c.log, t)
    {
      InTaskAppend(c.log, e, t);
    }
  }

  lemma LogSuccess(c: Client, r: IpResult)
    requires Inv(c) && c.log != []
    requires || c.log[|c.log| - 1] == CacheRead(r)
             || (HasAck(c.log, r) && Cleared(c.log, |c.log|, r))
    ensures Inv(Log(c, Publish(Success, r)))
    ensures forall t: Tally :: InTask(Log(c, Publish(Success, r)).log, t) == InTask(c.log, t)
  {
    hide AllJustified, HasAck, InTask, Cleared;
    AppendSuccess(c.log, r);
    forall t: Tally
      ensures InTask(Log(c, Publish(Success, r)).log, t) == InTask(c.log, t)
    {
      InTaskAppend(c.log, Publish(Success, r), t);
    }
  }

  lemma StopKeepsInv(c: Client)
    requires Inv(c)
    ensures Inv(StopIpv4(c)) && !InLoop(StopIpv4(c)) && StopIpv4(c).conflicts == 0
  {
    hide AllJustified, HasAck, InTask;
  }

  lemma EnterBoundKeepsInv(c: Client, env: Env)
    requires Inv(c)
    ensures Inv(EnterBound(c, env).(slowArpDetecting := false))
    ensures Inv(EnterBound(c, env)) || c.slowArpDetecting
    ensures InLoop(c) ==> Inv(EnterBound(c, env))
    ensures EnterBound(c, env).st == Bound && !InLoop(EnterBound(c, env))
  {
    hide AllJustified, HasAck, InTask;
  }

  lemma ScheduleChangesTimersOnly(c: Client, isCachedIp: bool, env: Env)
    ensures ScheduleLeaseTimers(c, isCachedIp, env) == c.(timers := ScheduleLeaseTimers(c, isCachedIp, env).timers)
  {
  }

  lemma TryCachedKeepsInv(c: Client, env: Env)
    requires Inv(c)
    ensures Inv(TryCachedIp(c, env))
    ensures TryCachedIp(c, env).st == c.st && TryCachedIp(c, env).sent == c.sent
    ensures InLoop(TryCachedIp(c, env)) ==> env.cached.None?
  {
    hide AllJustified, HasAck, InTask, Cleared, ScheduleLeaseTimers, SentBounded, ResendOk;
    if env.cached.Some? {
      var r := env.cached.value.result;
      var c1 := Log(c, CacheRead(r));
      LogQuiet(c, CacheRead(r));
      if env.publishOk {
        LogSuccess(c1, r);
      } else {
        LogQuiet(c1, Publish(Failed, r));
      }
      var c2 := StopIpv4(PublishResult(c1, r, env.publishOk));
      StopKeepsInv(PublishResult(c1, r, env.publishOk));
      NewLeaseKeepsInv(c2, r.leaseTime, env.now % WORD_SIZE);
      var c3 := c2.(leaseTime := r.leaseTime, renewalSec := RenewalOf(r.leaseTime), rebindSec := RebindOf(r.leaseTime),
                    renewalTimestamp := env.now % WORD_SIZE);
      ScheduleChangesTimersOnly(c3, true, env);
      NewTimersKeepInv(c3, ScheduleLeaseTimers(c3, true, env).timers);
    }
  }

  lemma NewLeaseKeepsInv(c: Client, lease: u32, timestamp: int)
    requires Inv(c)
    ensures Inv(c.(leaseTime := lease, renewalSec := RenewalOf(lease), rebindSec := RebindOf(lease),
                   renewalTimestamp := timestamp))
  {
    hide AllJustified, HasAck, InTask;
  }

  lemma NewTimersKeepInv(c: Client, t: Timers)
    requires Inv(c)
    ensures Inv(c.(timers := t))
  {
    hide AllJustified, HasAck, InTask;
  }

  lemma SelectingKeepsInv(c: Client, env: Env)
    requires Inv(c) && InLoop(c) && (c.st == Init || c.st == Selecting)
    ensures Inv(InitSelecting(c, env))
  {
    hide AllJustified, HasAck, InTask, Cleared, TryCachedIp;
    if c.sent > TIMEOUT_TIMES_MAX {
      LogQuiet(c, Pause);
    } else {
      var xid := if c.sent == 0 then env.random else c.transId;
      var e := Send(DiscoverMsg, xid, c.requestedIp, 0);
      LogQuiet(c, e);
      TryCachedKeepsInv(Log(c, e).(transId := xid, st := Selecting), env);
    }
  }

  lemma RequestingKeepsInv(c: Client, env: Env)
    requires Inv(c) && InLoop(c) && (c.st == Requesting || c.st == Renewed)
    ensures Inv(RequestAgain(c, env))
  {
    hide AllJustified, HasAck, InTask, Cleared, TryCachedIp;
    if c.sent <= TIMEOUT_TIMES_MAX {
      var e := Send(if c.st == Renewed then RenewMsg else RequestMsg, c.transId, c.requestedIp, c.serverIp);
      LogQuiet(c, e);
      TryCachedKeepsInv(Log(c, e), env);
    }
  }

  lemma RenewKeepsInv(c: Client, env: Env)
    requires Inv(c) && InLoop(c) && (c.st == Renewing || c.st == Rebinding)
    ensures Inv(Renew(c, env))
  {
    hide AllJustified, HasAck, InTask, Cleared;
    var server := if c.st == Rebinding then 0 else c.serverIp;
    LogQuiet(c, Send(if c.st == Rebinding then RebindMsg else RenewMsg, c.transId, c.requestedIp, server));
  }

  lemma RebootKeepsInv(c: Client, target: u32, now: int)
    requires Inv(c) && c.phase != NoTask && c.st == InitReboot && InTask(c.log, Reboots) <= c.sent
    ensures Inv(SendReboot(c, target, now))
    ensures SendReboot(c, target, now).st == InitReboot ==>
              InTask(SendReboot(c, target, now).log, Reboots) <= SendReboot(c, target, now).sent
    ensures InTask(SendReboot(c, target, now).log, Conflicts) == InTask(c.log, Conflicts)
    ensures InTask(SendReboot(c, target, now).log, Declines) == InTask(c.log, Declines)
  {
    hide AllJustified, HasAck, InTask, Cleared;
    if c.sent < 2 {
      var e := Send(RebootMsg, c.transId, target, 0);
      AppendPlain(c.log, e);
      InTaskAppend(c.log, e, Reboots);
      InTaskAppend(c.log, e, Declines);
      InTaskAppend(c.log, e, Conflicts);
    }
  }

  lemma DecliningKeepsInv(c: Client, env: Env)
    requires Inv(c) && InLoop(c) && c.st == Declined
    ensures Inv(Declining(c, env))
  {
    hide AllJustified, HasAck, InTask;
    var log1 := c.log + [Conflict];
    AppendPlain(c.log, Conflict);
    InTaskAppend(c.log, Conflict, Reboots);
    InTaskAppend(c.log, Conflict, Declines);
    InTaskAppend(c.log, Conflict, Conflicts);
    if c.conflicts + 1 > MAX_CONFLICTS_COUNT {
      assert log1[..|log1|] == log1;
      assert Cleared(log1, |log1|, c.result);
      var e := Publish(if env.publishOk then Success else Failed, c.result);
      if env.publishOk {
        AppendSuccess(log1, c.result);
      } else {
        AppendPlain(log1, e);
      }
      InTaskAppend(log1, e, Reboots);
      InTaskAppend(log1, e, Declines);
    } else {
      var e := Send(DeclineMsg, c.transId, c.requestedIp, c.serverIp);
      AppendPlain(log1, e);
      InTaskAppend(log1, e, Reboots);
      InTaskAppend(log1, e, Declines);
      InTaskAppend(log1, e, Conflicts);
    }
  }

  lemma FastArpKeepsInv(c: Client, env: Env)
    requires Inv(c) && InLoop(c) && c.st == FastArp
    ensures Inv(FastArpDetect(c, env))
  {
    hide AllJustified, HasAck, InTask;
    var e := FastProbe(c.arpTarget, env.arpAnswered);
    LogQuiet(c, e);
    var c1 := Log(c, e);
    if !env.arpAnswered {
      if env.publishOk {
        LogSuccess(c1, c.result);
      } else {
        LogQuiet(c1, Publish(Failed, c.result));
        StopKeepsInv(Log(c1, Publish(Failed, c.result)));
      }
    }
  }

  lemma SlowArpKeepsInv(c: Client, env: Env)
    requires Inv(c) && InLoop(c) && c.st == SlowArp
    ensures Inv(SlowArpDetect(c, env))
  {
    hide AllJustified, HasAck, InTask, EnterBound;
    if c.sent > SLOW_ARP_DETECTION_TRY_CNT {
      EnterBoundKeepsInv(c, env);
    } else if c.sent < SLOW_ARP_DETECTION_TRY_CNT {
      LogQuiet(c, SlowProbe(c.arpTarget, env.arpAnswered));
    }
  }

  lemma TimeoutKeepsInv(c: Client, env: Env)
    requires Inv(c) && InLoop(c)
    ensures Inv(DhcpRequestHandle(c, env))
  {
    hide AllJustified, HasAck, InTask, InitSelecting, RequestAgain, Renew, SendReboot, FastArpDetect, SlowArpDetect,
      Declining;
    match c.st
    case Init => SelectingKeepsInv(c, env);
    case Selecting => SelectingKeepsInv(c, env);
    case Requesting => RequestingKeepsInv(c, env);
    case Renewed => RequestingKeepsInv(c, env);
    case Bound => RenewKeepsInv(c.(st := Renewing), env);
    case Renewing => RenewKeepsInv(c, env);
    case Rebinding => RenewKeepsInv(c, env);
    case InitReboot => RebootKeepsInv(c, c.requestedIp, env.now);
    case Released =>
    case FastArp => FastArpKeepsInv(c, env);
    case SlowArp => SlowArpKeepsInv(c, env);
    case Declined => DecliningKeepsInv(c, env);
  }

  lemma AckKeepsInv(c: Client, p: Packet, env: Env)
    requires Inv(c) && InLoop(c) && p.xid == c.transId && !Probing(c.st)
    ensures Inv(AfterAck(c, p, env))
  {
    hide AllJustified, HasAck, InTask, EnterBound;
    var e := AckParsed(p, c.st, c.transId);
    AppendAck(c.log, p, c.st, c.transId);
    InTaskAppend(c.log, e, Reboots);
    InTaskAppend(c.log, e, Declines);
    InTaskAppend(c.log, e, Conflicts);
    var c1 := ParseDhcpAckPacket(c, p, env);
    assert Inv(c1);
    if NeedsDns(p, c.st) && env.cached.Some? {
      AppendDns(c.log, p, c.st, c.transId, env.cached.value.result);
      LogQuiet(c1, DnsRead(env.cached.value.result));
    }
    if env.ifaceOk && !NeedsProbe(c.st) && env.publishOk {
      var c2 := c1.(timers := CloseAllRenewTimer(c1.timers));
      var c3 := PublishResult(c2, c2.result, true);
      AppendRenewed(c.log, p, c.st, c.transId);
      InTaskAppend(c1.log, Publish(Success, c2.result), Reboots);
      InTaskAppend(c1.log, Publish(Success, c2.result), Declines);
      InTaskAppend(c1.log, Publish(Success, c2.result), Conflicts);
      assert Inv(c3);
      EnterBoundKeepsInv(c3, env);
    }
  }

  lemma ReceiveKeepsInv(c: Client, received: Option<Packet>, env: Env)
    requires Inv(c) && InLoop(c)
    ensures Inv(DhcpResponseHandle(c, received, env))
  {
    hide AllJustified, HasAck, InTask, AfterAck;
    if received.Some? && received.value.xid == c.transId {
      var c1 := GetDhcpOffer(c, received.value, env);
      assert Inv(c1);
      if !Probing(c1.st) {
        AckKeepsInv(c1, received.value, env);
      }
    }
  }

  lemma CallbackKeepsInv(c: Client, reachable: bool, env: Env)
    requires Inv(c)
    ensures Inv(SlowArpDetectCallback(c, reachable, env)) && Inv(SlowArpTimeoutCallback(c, env))
  {
    hide AllJustified, HasAck, InTask, EnterBound;
    LogQuiet(c, SlowProbe(c.arpTarget, reachable));
    EnterBoundKeepsInv(Log(c, SlowProbe(c.arpTarget, reachable)), env);
    EnterBoundKeepsInv(c, env);
  }

  lemma BeginKeepsInv(c: Client, cachedIp: u32, socketsOk: bool, env: Env)
    requires Inv(c) && c.phase == Posted
    ensures Inv(BeginTask(c, cachedIp, socketsOk, env))
  {
    hide AllJustified, HasAck, InTask, SendReboot;
    AppendPlain(c.log, Began);
    InTaskAppend(c.log, Began, Reboots);
    InTaskAppend(c.log, Began, Declines);
    InTaskAppend(c.log, Began, Conflicts);
    var c1 := Log(c, Began);
    assert Inv(c1);
    if !IsRenewal(c.action) && cachedIp != 0 {
      var c2 := c1.(st := InitReboot, resendTimer := 0, sent := 0, timeout := 0, conflicts := 0, transId := env.random);
      assert Inv(c2);
      RebootKeepsInv(c2, cachedIp, env.now);
      RebootShape(c2, cachedIp, env.now);
    }
  }

  lemma RebootShape(c: Client, target: u32, now: int)
    ensures var r := SendReboot(c, target, now);
            && r.flag == c.flag && r.phase == c.phase && r.action == c.action && r.conflicts == c.conflicts
            && r.slowArpDetecting == c.slowArpDetecting && (r.st == c.st || r.st == Init)
  {
  }

  lemma RenewCallbackKeepsInv(c: Client, t2: bool, configOk: bool, postOk: bool, getIpTimeout: int)
    requires Inv(c)
    ensures Inv(RenewCallback(c, t2, configOk, postOk, getIpTimeout))
  {
    hide AllJustified, HasAck, InTask, StartTimer, StopTimer;
    StopKeepsInv(c.(timers := StopTimer(c.timers, if t2 then RebindDelay else RenewDelay)));
  }

  lemma StartKeepsInv(c: Client, action: Action, configOk: bool, postOk: bool, getIpTimeout: int)
    requires Inv(c)
    ensures Inv(StartTask(c, action, configOk, postOk, getIpTimeout))
  {
    hide AllJustified, HasAck, InTask, StartTimer, StopTimer;
  }

  lemma StopInputsKeepInv(c: Client)
    requires Inv(c)
    ensures Inv(StopIpv4(c.(timers := CloseAllRenewTimer(c.timers))))
    ensures Inv(ExpireCallback(c)) && Inv(GetIpTimerCallback(c))
  {
    hide AllJustified, HasAck, InTask, StartTimer, StopTimer, CloseAllRenewTimer, Log, StopIpv4;
    StopKeepsInv(c.(timers := CloseAllRenewTimer(c.timers)));
    StopKeepsInv(c);
    var c1 := StopIpv4(c);
    LogQuiet(c1.(timers := CloseAllRenewTimer(c1.timers), action := RenewT3), Publish(Expired, NO_RESULT));
    var c0 := c.(timers := StopTimer(c.timers, GetIp));
    StopKeepsInv(c0);
    LogQuiet(StopIpv4(c0), Publish(Expired, NO_RESULT));
    LogQuiet(StopIpv4(c0), Publish(TimedOut, NO_RESULT));
  }

  lemma ExitKeepsInv(c: Client)
    requires Inv(c) && c.flag != Running
    ensures Inv(c.(phase := NoTask, flag := Idle))
  {
    hide AllJustified, HasAck, InTask;
  }

  lemma StepKeepsInv(c: Client, i: Input)
    requires Inv(c)
    ensures Inv(Step(c, i))
  {
    hide Inv, DhcpRequestHandle, DhcpResponseHandle, SlowArpDetectCallback, SlowArpTimeoutCallback, BeginTask, InTask,
      StartTask, RenewCallback, ExpireCallback, GetIpTimerCallback, StopIpv4;
    match i
    case Timeout(env) => if InLoop(c) { TimeoutKeepsInv(c, env); }
    case Receive(p, env) => if InLoop(c) { ReceiveKeepsInv(c, p, env); }
    case ArpDone(reachable, env) => CallbackKeepsInv(c, reachable, env);
    case ArpTimeout(env) => CallbackKeepsInv(c, true, env);
    case Begin(cachedIp, socketsOk, env) => if c.phase == Posted { BeginKeepsInv(c, cachedIp, socketsOk, env); }
    case StartGo(action, configOk, postOk, t) => StartKeepsInv(c, action, configOk, postOk, t);
    case T1(configOk, postOk, t) => RenewCallbackKeepsInv(c, false, configOk, postOk, t);
    case T2(configOk, postOk, t) => RenewCallbackKeepsInv(c, true, configOk, postOk, t);
    case Exit => if c.phase == Looping && c.flag != Running { ExitKeepsInv(c); }
    case StartStop => StopInputsKeepInv(c);
    case Stop => StopInputsKeepInv(c);
    case T3 => StopInputsKeepInv(c);
    case GetIpTimeout => StopInputsKeepInv(c);
  }

  lemma NewClientOk()
    ensures Inv(NEW_CLIENT)
  {
  }

  /** Every run keeps the invariant. */
  lemma {:induction false} RunKeepsInv(inputs: seq<Input>)
    ensures Inv(Run(inputs))
    decreases |inputs|
  {
    hide Step, Inv;
    if inputs == [] {
      NewClientOk();
    } else {
      RunKeepsInv(inputs[..|inputs| - 1]);
      StepKeepsInv(Run(inputs[..|inputs| - 1]), inputs[|inputs| - 1]);
    }
  }

  /**
   In every run each success published is the cached result just read, or what the last
   acknowledgement of the current transaction said; and a new address is published only
   after a fast probe of it went unanswered, or at the third conflict of the task.
   */
  lemma {:induction false} PublicationsJustified(inputs: seq<Input>, i: nat)
    requires i < |Run(inputs).log|
    ensures Justified(Run(inputs).log, i)
  {
    hide Run, InTask, Justified;
    RunKeepsInv(inputs);
  }

  /** In every run: at most two reboot requests and two declines per task, and a resend delay of 0, 1, 2, 4 or 6 s. */
  lemma {:induction false} RetriesBounded(inputs: seq<Input>)
    ensures var c := Run(inputs);
            && InTask(c.log, Reboots) <= 2 && InTask(c.log, Declines) <= 2
            && c.resendTimer in {0, 1, 2, 4, 6} && SentBounded(c)
  {
    hide Run, InTask, SentBounded;
    RunKeepsInv(inputs);
  }
}
