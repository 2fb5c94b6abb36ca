/**
 Progress of the client state machine: a client that hears nothing settles, discovery goes in
 bursts, and the waits within one visit to a state grow.
 */
module ClientProgress {
  import opened Wrappers
  import opened Words
  import opened ClientMachine
  import opened ClientRuns

  // ----- Progress -----

  /** How far a client that hears nothing is from INIT, BOUND or a stopped task. */
  function Rank(c: Client): nat {
    match c.st
    case Requesting => if c.sent <= 16 then 17 - c.sent else 0
    case Renewed => if c.sent <= 16 then 17 - c.sent else 0
    case InitReboot => if c.sent <= 2 then 3 - c.sent else 0
    case FastArp => 7
    case SlowArp => if c.sent <= 3 then 6 - c.sent else 0
    case Declined => 1
    case _ => 0
  }

  lemma TimeoutLowersRank(c: Client, env: Env)
    requires Inv(c) && InLoop(c) && Rank(c) > 0
    ensures var c' := DhcpRequestHandle(c, env); Rank(c') < Rank(c) || !InLoop(c')
  {
    hide TaskOk, TalliesOk, ResultOk, ScheduleLeaseTimers, InTask, WaitSec, TryCachedIp;
    if c.st == Requesting || c.st == Renewed {
      var msg := if c.st == Renewed then RenewMsg else RequestMsg;
      TryCachedShape(Log(c, Send(msg, c.transId, c.requestedIp, c.serverIp)), env);
    }
    if c.st == SlowArp {
      EnterBoundShape(c, env);
    }
  }

  lemma TryCachedShape(c: Client, env: Env)
    ensures TryCachedIp(c, env).st == c.st
  {
    hide ScheduleLeaseTimers;
    if env.cached.Some? {
      var r := env.cached.value.result;
      var c1 := StopIpv4(PublishResult(Log(c, CacheRead(r)), r, env.publishOk));
      ScheduleChangesTimersOnly(
        c1.(leaseTime := r.leaseTime, renewalSec := RenewalOf(r.leaseTime), rebindSec := RebindOf(r.leaseTime),
            renewalTimestamp := env.now % WORD_SIZE), true, env);
    }
  }

  lemma EnterBoundShape(c: Client, env: Env)
    ensures EnterBound(c, env).st == Bound
  {
    hide ScheduleLeaseTimers;
    ScheduleChangesTimersOnly(
      StopIpv4(c.(st := Bound, sent := 0, resendTimer := 0, timeout := env.now + c.renewalSec)), false, env);
  }

  /** The client after a series of timeouts that the environment answers with `envs`. */
  function Silence(c: Client, envs: seq<Env>): Client
    decreases |envs|
  {
    if envs == [] || !InLoop(c) then c else Silence(DhcpRequestHandle(c, envs[0]), envs[1..])
  }

  /** The states in which the client asks for or probes an address. */
  predicate Seeking(s: DhcpState) {
    s in {Requesting, Renewed, InitReboot, FastArp, SlowArp, Declined}
  }

  predicate Settled(c: Client) {
    !InLoop(c) || c.st == Init || c.st == Bound
  }

  lemma SeekingHasRank(c: Client)
    requires SentBounded(c) && Seeking(c.st)
    ensures Rank(c) > 0
  {
  }

  /** From these states a timeout leads to one of them, or settles the client. */
  lemma SeekingUntilSettled(c: Client, env: Env)
    requires Inv(c) && Seeking(c.st)
    ensures var c' := DhcpRequestHandle(c, env); Seeking(c'.st) || Settled(c')
  {
    hide TaskOk, TalliesOk, ResultOk, ScheduleLeaseTimers, InTask, WaitSec, TryCachedIp;
    if c.st == Requesting || c.st == Renewed {
      var msg := if c.st == Renewed then RenewMsg else RequestMsg;
      TryCachedShape(Log(c, Send(msg, c.transId, c.requestedIp, c.serverIp)), env);
    }
    if c.st == SlowArp {
      EnterBoundShape(c, env);
    }
  }

  /**
   Without answers, some prefix of at most `Rank(c)` timeouts takes a client that seeks an address
   to INIT, BOUND or a stopped task.
   */
  lemma SilenceSettles(c: Client, envs: seq<Env>) returns (n: nat)
    requires Inv(c) && Seeking(c.st) && |envs| >= Rank(c)
    ensures n <= Rank(c) && n <= |envs|
    ensures var c' := Silence(c, envs[..n]); !InLoop(c') || c'.st == Init || c'.st == Bound
    decreases Rank(c)
  {
    hide DhcpRequestHandle, Rank, Seeking, TaskOk, TalliesOk, ResultOk, SentBounded;
    if Settled(c) {
      n := 0;
    } else {
      assert Rank(c) > 0 by {
        SeekingHasRank(c);
      }
      SeekingUntilSettled(c, envs[0]);
      TimeoutLowersRank(c, envs[0]);
      TimeoutKeepsInv(c, envs[0]);
      var c1 := DhcpRequestHandle(c, envs[0]);
      if !Settled(c1) {
        n := SilenceSettles(c1, envs[1..]);
        assert envs[..n + 1][1..] == envs[1..][..n];
        n := n + 1;
      } else {
        n := 1;
        assert envs[..1][1..] == [];
      }
    }
  }

  // ----- Discovery in bursts -----

  function Discovers(log: seq<Event>): nat {
    if log == [] then 0
    else Discovers(log[..|log| - 1]) +
         if log[|log| - 1].Send? && log[|log| - 1].msg == DiscoverMsg then 1 else 0
  }

  /**
   A client that hears no offer and has no cached address sends sixteen DISCOVERs, pauses for
   60 s, and starts over: after k timeouts it has sent k - k/17 of them.
   */
  lemma {:induction false} DiscoverBursts(c: Client, envs: seq<Env>)
    requires InLoop(c) && (c.st == Init || c.st == Selecting) && c.sent == 0
    requires forall e <- envs :: e.cached.None?
    ensures var c' := Silence(c, envs);
            && InLoop(c') && (c'.st == Init || c'.st == Selecting)
            && c'.sent == |envs| % 17
            && Discovers(c'.log) == Discovers(c.log) + |envs| - |envs| / 17
            && (envs != [] ==> c'.timeout == envs[|envs| - 1].now +
                                 (if |envs| % 17 == 0 then 60 else WaitSec(c'.sent - 1)))
    decreases |envs|
  {
    hide WaitSec, InitSelecting, DhcpRequestHandle, Discovers, InLoop;
    if envs == [] {
      assert |envs| % 17 == 0 && |envs| / 17 == 0;
    } else {
      var n := |envs| - 1;
      DiscoverBursts(c, envs[..n]);
      SilenceSnoc(c, envs[..n], envs[n]);
      assert envs == envs[..n] + [envs[n]];
      var c1 := Silence(c, envs[..n]);
      DiscoverOnce(c1, envs[n]);
      assert Silence(c1, [envs[n]]) == DhcpRequestHandle(c1, envs[n]) by { SilenceOnce(c1, envs[n]); }
      CountBy17(n);
    }
  }

  lemma CountBy17(n: nat)
    ensures n % 17 == 16 ==> (n + 1) % 17 == 0 && (n + 1) / 17 == n / 17 + 1
    ensures n % 17 < 16 ==> (n + 1) % 17 == n % 17 + 1 && (n + 1) / 17 == n / 17
  {
  }

  lemma {:induction false} SilenceOnce(c: Client, env: Env)
    requires InLoop(c)
    ensures Silence(c, [env]) == DhcpRequestHandle(c, env)
  {
    hide DhcpRequestHandle;
    assert [env][1..] == [];
  }

  lemma DiscoverOnce(c: Client, env: Env)
    requires InLoop(c) && (c.st == Init || c.st == Selecting) && c.sent <= 16 && env.cached.None?
    ensures var c' := DhcpRequestHandle(c, env);
            && InLoop(c') && (c'.st == Init || c'.st == Selecting)
            && (if c.sent == 16
                then c'.sent == 0 && c'.timeout == env.now + 60 && Discovers(c'.log) == Discovers(c.log)
                else c'.sent == c.sent + 1 && c'.timeout == env.now + WaitSec(c.sent)
                     && Discovers(c'.log) == Discovers(c.log) + 1)
  {
    hide WaitSec;
    var c' := DhcpRequestHandle(c, env);
    assert c'.log[..|c.log|] == c.log;
  }

  lemma {:induction false} SilenceSnoc(c: Client, envs: seq<Env>, env: Env)
    ensures Silence(c, envs + [env]) == Silence(Silence(c, envs), [env])
    decreases |envs|
  {
    hide DhcpRequestHandle;
    if envs == [] {
      assert envs + [env] == [env];
    } else if InLoop(c) {
      assert (envs + [env])[1..] == envs[1..] + [env];
      SilenceSnoc(DhcpRequestHandle(c, envs[0]), envs[1..], env);
    }
  }

  // ----- Waits -----

  /** 1, 2, 4, 8, 16 and then 32 s. */
  lemma WaitDoubles(sent: nat)
    ensures WaitSec(sent) <= WaitSec(sent + 1) <= 32
    ensures WaitSec(sent + 1) == if WaitSec(sent) < 32 then 2 * WaitSec(sent) else 32
    ensures sent >= MAX_WAIT_TIMES ==> WaitSec(sent) == 32
  {
    assert Pow2(5) == 32;
    Pow2Monotone(if sent > MAX_WAIT_TIMES then MAX_WAIT_TIMES else sent, 5);
    if sent < MAX_WAIT_TIMES {
      Pow2Monotone(sent, sent + 1);
      Pow2Monotone(sent + 1, 5);
      Pow2Monotone(sent, 4);
      assert Pow2(4) == 16;
    }
  }

  lemma WaitMonotone(i: nat, j: nat)
    requires i <= j
    ensures WaitSec(i) <= WaitSec(j) <= 32
    decreases j
  {
    hide WaitSec;
    WaitDoubles(j);
    if i < j {
      WaitMonotone(i, j - 1);
      WaitDoubles(j - 1);
    }
  }

  /** The states in which a message is repeated. */
  predicate Repeating(s: DhcpState) {
    s in {Init, Selecting, Requesting, Renewed, Renewing, Rebinding, InitReboot}
  }

  /** INIT only starts the visit to SELECTING. */
  function VisitOf(s: DhcpState): DhcpState {
    if s == Init then Selecting else s
  }

  /** Inputs that begin a visit anew: a task that begins, T1, T2, and the timeout that pauses discovery. */
  predicate Reenters(c: Client, i: Input) {
    i.Begin? || i.T1? || i.T2? || (i.Timeout? && VisitOf(c.st) == Selecting && c.sent > TIMEOUT_TIMES_MAX)
  }

  ghost predicate Sends(c: Client, c': Client) {
    exists k :: |c.log| <= k < |c'.log| && c'.log[k].Send?
  }

  /** A step within a visit that sends waits by the number of packets sent and counts this one; others count nothing. */
  ghost predicate WaitsBySent(c: Client, i: Input, c': Client) {
    if Sends(c, c')
    then i.Timeout? && c'.timeout == i.env.now + WaitSec(c.sent) && c'.sent == c.sent + 1
    else c'.sent == c.sent
  }

  lemma TryCachedKeepsSent(c: Client, env: Env)
    ensures var c' := TryCachedIp(c, env);
            && c'.sent == c.sent && c'.st == c.st && c.log <= c'.log
            && forall k :: |c.log| <= k < |c'.log| ==> !c'.log[k].Send?
  {
    hide ScheduleLeaseTimers;
    if env.cached.Some? {
      var r := env.cached.value.result;
      var c1 := StopIpv4(PublishResult(Log(c, CacheRead(r)), r, env.publishOk));
      ScheduleChangesTimersOnly(
        c1.(leaseTime := r.leaseTime, renewalSec := RenewalOf(r.leaseTime), rebindSec := RebindOf(r.leaseTime),
            renewalTimestamp := env.now % WORD_SIZE), true, env);
    }
  }

  lemma TimeoutWaits(c: Client, i: Input)
    requires i.Timeout? && InLoop(c) && Repeating(c.st) && !Reenters(c, i)
    requires VisitOf(DhcpRequestHandle(c, i.env).st) == VisitOf(c.st)
    ensures WaitsBySent(c, i, DhcpRequestHandle(c, i.env))
  {
    hide ScheduleLeaseTimers, WaitSec, TryCachedIp;
    var c' := DhcpRequestHandle(c, i.env);
    if c.st == Init || c.st == Selecting {
      var xid := if c.sent == 0 then i.env.random else c.transId;
      TryCachedKeepsSent(Log(c, Send(DiscoverMsg, xid, c.requestedIp, 0)).(transId := xid, st := Selecting), i.env);
    } else if c.st == Requesting || c.st == Renewed {
      var msg := if c.st == Renewed then RenewMsg else RequestMsg;
      TryCachedKeepsSent(Log(c, Send(msg, c.transId, c.requestedIp, c.serverIp)), i.env);
    }
    assert c'.log[|c.log|].Send?;
  }

  lemma ReceiveSendsNothing(c: Client, received: Option<Packet>, env: Env)
    requires Repeating(c.st) && VisitOf(DhcpResponseHandle(c, received, env).st) == VisitOf(c.st)
    ensures var c' := DhcpResponseHandle(c, received, env); c'.sent == c.sent && !Sends(c, c')
  {
    hide EnterBound, ParseAck, LeaseOf, CloseAllRenewTimer, RenewalOf, RebindOf;
    if received.Some? {
      var c1 := ParseDhcpAckPacket(GetDhcpOffer(c, received.value, env), received.value, env);
      var c2 := c1.(timers := CloseAllRenewTimer(c1.timers));
      EnterBoundShape(PublishResult(c2, c2.result, true), env);
    }
  }

  lemma StepWaits(c: Client, i: Input)
    requires Inv(c) && Repeating(c.st) && VisitOf(Step(c, i).st) == VisitOf(c.st) && !Reenters(c, i)
    ensures WaitsBySent(c, i, Step(c, i))
  {
    hide DhcpRequestHandle, DhcpResponseHandle, EnterBound, TalliesOk, ResultOk, WaitSec, StartTimer, StopTimer,
      CloseAllRenewTimer;
    match i
    case Timeout(env) => if InLoop(c) && c.timeout <= env.now { TimeoutWaits(c, i); }
    case Receive(p, env) => if InLoop(c) && c.timeout > env.now { ReceiveSendsNothing(c, p, env); }
    case _ =>
  }

  // ----- Waits in a run -----

  /** The client of a run before input `k`. */
  function Before(inputs: seq<Input>, k: nat): Client
    requires k <= |inputs|
  {
    Run(inputs[..k])
  }

  /** From input `a` up to input `b` the run stays in one visit to one state. */
  ghost predicate OneVisit(inputs: seq<Input>, a: nat, b: nat) {
    && a <= b <= |inputs| && Repeating(Before(inputs, a).st)
    && forall k: nat | a <= k < b ::
      VisitOf(Before(inputs, k + 1).st) == VisitOf(Before(inputs, k).st) && !Reenters(Before(inputs, k), inputs[k])
  }

  ghost predicate SendsAt(inputs: seq<Input>, k: nat)
    requires k < |inputs|
  {
    Sends(Before(inputs, k), Before(inputs, k + 1))
  }

  /** How many of the inputs from `a` up to `b` make the client send. */
  ghost function Sendings(inputs: seq<Input>, a: nat, b: nat): nat
    requires a <= b <= |inputs|
    decreases b
  {
    if a == b then 0 else Sendings(inputs, a, b - 1) + if SendsAt(inputs, b - 1) then 1 else 0
  }

  /** How long the client waits after input `k`, a timeout. */
  function WaitAt(inputs: seq<Input>, k: nat): int
    requires k < |inputs| && inputs[k].Timeout?
  {
    Before(inputs, k + 1).timeout - inputs[k].env.now
  }

  lemma BeforeNext(inputs: seq<Input>, k: nat)
    requires k < |inputs|
    ensures Before(inputs, k + 1) == Step(Before(inputs, k), inputs[k]) && Inv(Before(inputs, k))
  {
    hide Step, Inv;
    assert inputs[..k + 1][..k] == inputs[..k];
    RunKeepsInv(inputs[..k]);
  }

  /** Through a visit the client counts what it sends, and sends on timeouts only. */
  lemma {:induction false} VisitCounts(inputs: seq<Input>, a: nat, b: nat)
    requires OneVisit(inputs, a, b)
    ensures VisitOf(Before(inputs, b).st) == VisitOf(Before(inputs, a).st) && Repeating(Before(inputs, b).st)
    ensures Before(inputs, b).sent == Before(inputs, a).sent + Sendings(inputs, a, b)
    decreases b
  {
    hide Step, Inv, Sends, WaitSec, Before, Reenters;
    if a < b {
      VisitCounts(inputs, a, b - 1);
      BeforeNext(inputs, b - 1);
      StepWaits(Before(inputs, b - 1), inputs[b - 1]);
    }
  }

  /** Packet number n, counted from what was sent when the visit began, is followed by a wait of `WaitSec(n)`. */
  lemma {:induction false} VisitWait(inputs: seq<Input>, a: nat, b: nat, k: nat)
    requires OneVisit(inputs, a, b) && a <= k < b && SendsAt(inputs, k)
    ensures inputs[k].Timeout?
    ensures WaitAt(inputs, k) == WaitSec(Before(inputs, a).sent + Sendings(inputs, a, k))
  {
    hide Step, Inv, Sends, WaitSec, Before, Reenters;
    VisitCounts(inputs, a, k);
    BeforeNext(inputs, k);
    StepWaits(Before(inputs, k), inputs[k]);
  }

  lemma {:induction false} SendingsAdd(inputs: seq<Input>, a: nat, i: nat, j: nat)
    requires a <= i <= j <= |inputs|
    ensures Sendings(inputs, a, j) == Sendings(inputs, a, i) + Sendings(inputs, i, j)
    decreases j
  {
    hide SendsAt;
    if i < j {
      SendingsAdd(inputs, a, i, j - 1);
    }
  }

  /**
   In every run the waits of one visit never shrink: after each repetition the client waits twice
   as long as after the one before, up to 32 s.
   */
  lemma {:induction false} VisitWaitsGrow(inputs: seq<Input>, a: nat, b: nat, i: nat, j: nat)
    requires OneVisit(inputs, a, b) && a <= i < j < b && SendsAt(inputs, i) && SendsAt(inputs, j)
    ensures inputs[i].Timeout? && inputs[j].Timeout?
    ensures WaitAt(inputs, i) == WaitSec(Before(inputs, a).sent + Sendings(inputs, a, i))
    ensures WaitAt(inputs, i) <= WaitAt(inputs, j) <= 32
    ensures Sendings(inputs, i, j) == 1 ==>
              WaitAt(inputs, j) == if WaitAt(inputs, i) < 32 then 2 * WaitAt(inputs, i) else 32
  {
    hide Before, SendsAt, WaitSec, WaitAt, Sendings;
    VisitWait(inputs, a, b, i);
    VisitWait(inputs, a, b, j);
    SendingsAdd(inputs, a, i, j);
    var n := Before(inputs, a).sent + Sendings(inputs, a, i);
    WaitMonotone(n, n + Sendings(inputs, i, j));
    WaitDoubles(n);
  }
}
