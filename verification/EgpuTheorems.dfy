/** What the connection machine keeps over every run, whatever the hardware does. */
module EgpuTheorems {
  import opened EgpuSpec

  // ---------------------------------------------------------------- termination bounds

  /** One connect makes at most one tunnel attempt more than the retries left, and exactly that many
      when every attempt fails; it never goes beyond the retry limit. */
  lemma {:induction false} ConnectBound(m: Machine, env: Environment)
    requires m.initialized
    ensures var (n, code) := Connect(m, env);
            && n.attempts <= m.attempts + RetriesLeft(m) + 1
            && n.resets == m.resets && n.policy == m.policy && n.initialized
            && (code == TunnelFailed ==> n.attempts == m.attempts + RetriesLeft(m) + 1)
            && (code == NoError ==> n.retryCount == 0)
            && (code != NoError ==> m.retryCount <= n.retryCount <= m.retryCount + RetriesLeft(m))
    decreases RetriesLeft(m)
  {
    if ScanFailure(m, env).None? && !env.tunnel(m.attempts) && RetriesLeft(m) > 0 {
      ConnectBound(m.(scans := m.scans + 1, attempts := m.attempts + 1, lastError := TunnelFailed, state := Failed,
                      retryCount := m.retryCount + 1), env);
    }
  }

  /** One recovery makes at most max_retry - retry_count tunnel attempts, those of its reconnect
      included, and none when the limit was reached. */
  lemma RecoverBound(m: Machine, env: Environment)
    requires m.initialized
    ensures var (n, code) := Recover(m, env);
            n.attempts - m.attempts <= if m.retryCount < m.policy.maxRetry then m.policy.maxRetry - m.retryCount else 0
  {
    if m.retryCount < m.policy.maxRetry {
      ConnectBound(ForceDisconnect(m.(retryCount := m.retryCount + 1, state := Recovering, resets := m.resets + 1)), env);
    }
  }

  // ---------------------------------------------------------------- the invariant

  predicate LinkUp(m: Machine) { m.tunnelUp && m.gpuUp }

  predicate LinkDown(m: Machine) { !m.tunnelUp && !m.gpuUp }

  predicate Retrying(m: Machine) {
    0 <= m.retryCount && (m.retryCount <= m.policy.maxRetry || m.retryCount == 0)
  }

  predicate Inv(m: Machine) {
    && (LinkUp(m) || LinkDown(m)) && Retrying(m)
    && (m.initialized || (LinkDown(m) && (m.state == Disconnected || m.state == Failed)))
    && match m.state
       case Disconnected => LinkDown(m)
       case Connected => LinkUp(m) && m.lastError == NoError && m.retryCount == 0
       case Degraded => LinkUp(m) && m.lastError == NoError && m.retryCount == 0
       case Failed => m.lastError != NoError
       case _ => false
  }

  /** The code a connect returns is the last error, and it is successful exactly when the machine
      ends connected with both ends up. */
  lemma {:induction false} ConnectFromDown(m: Machine, env: Environment)
    requires m.initialized && LinkDown(m)
    requires Retrying(m)
    ensures var (n, code) := Connect(m, env);
            && Inv(n) && code == n.lastError
            && (code == NoError <==> n.state == Connected) && (code == NoError <==> LinkUp(n))
            && (n.state == Failed <==> code == IncompatibleDevice && !m.policy.forceOnIncompatible)
    decreases RetriesLeft(m)
  {
    if ScanFailure(m, env).None? && !env.tunnel(m.attempts) && RetriesLeft(m) > 0 {
      ConnectFromDown(m.(scans := m.scans + 1, attempts := m.attempts + 1, lastError := TunnelFailed, state := Failed,
                         retryCount := m.retryCount + 1), env);
    }
  }

  lemma RecoverFromUp(m: Machine, env: Environment)
    requires m.initialized && LinkUp(m)
    requires Retrying(m)
    ensures Inv(Recover(m, env).0)
    ensures Recover(m, env).1 != RecoveryFailed ==> Recover(m, env).1 == Recover(m, env).0.lastError
  {
    if m.retryCount < m.policy.maxRetry {
      ConnectFromDown(ForceDisconnect(m.(retryCount := m.retryCount + 1, state := Recovering, resets := m.resets + 1)), env);
    }
  }

  // The calls the invariant allows: connect while the link is down, recovery while it is up or no retry is
  // left, shutdown unless an error state hides a live link.  StepSafe shows that these are all.
  predicate Allowed(m: Machine, op: Op) {
    match op
    case ConnectOp => LinkDown(m)
    case RecoverOp => LinkUp(m) || m.retryCount >= m.policy.maxRetry
    case ShutdownOp => !(m.state == Failed && LinkUp(m))
    case _ => true
  }

  predicate AllAllowed(m: Machine, ops: seq<Op>, env: Environment)
    decreases |ops|
  {
    ops == [] || (Allowed(m, ops[0]) && AllAllowed(Step(m, ops[0], env), ops[1..], env))
  }

  lemma TickKeepsInv(m: Machine, env: Environment)
    requires Inv(m)
    ensures Inv(Tick(m, env))
  {
    if m.state == Connected || m.state == Degraded {
      RecoverFromUp(m.(lastError := LinkUnstable, state := Failed), env);
      RecoverFromUp(m.(lastError := DataCorruption, state := Failed), env);
    }
  }

  lemma StepKeepsInv(m: Machine, op: Op, env: Environment)
    requires Inv(m) && Allowed(m, op)
    ensures Inv(Step(m, op, env))
  {
    match op
    case ConnectOp => if m.initialized { ConnectFromDown(m, env); }
    case RecoverOp => if LinkUp(m) { RecoverFromUp(m, env); }
    case TickOp => TickKeepsInv(m, env);
    case _ =>
  }

  /** Over every run, whatever the environment does: disconnected means both ends are down,
      connected or degraded means both are up with no error and no retry pending. */
  lemma {:induction false} RunKeepsInv(m: Machine, ops: seq<Op>, env: Environment)
    requires Inv(m) && AllAllowed(m, ops, env)
    ensures Inv(Run(m, ops, env))
    decreases |ops|
  {
    if ops != [] {
      StepKeepsInv(m, ops[0], env);
      RunKeepsInv(Step(m, ops[0], env), ops[1..], env);
    }
  }

  lemma RunFromInit(policy: Policy, health: Health, ops: seq<Op>, env: Environment)
    requires AllAllowed(Init(policy, health), ops, env)
    ensures Inv(Run(Init(policy, health), ops, env))
  {
    RunKeepsInv(Init(policy, health), ops, env);
  }

  /** A tick at or over the thermal limit ends disconnected with the thermal error, whatever the
      other metrics and the environment are. */
  lemma ThermalTick(m: Machine, env: Environment)
    requires Inv(m) && (m.state == Connected || m.state == Degraded)
    ensures m.health.temperature >= m.policy.thermalLimit <==> Tick(m, env).lastError == ThermalShutdown
    ensures m.health.temperature >= m.policy.thermalLimit ==>
            Tick(m, env).state == Disconnected && LinkDown(Tick(m, env)) && Tick(m, env).attempts == m.attempts
  {
    if m.health.temperature < m.policy.thermalLimit {
      NoThermalError(m.(lastError := LinkUnstable, state := Failed), env);
      NoThermalError(m.(lastError := DataCorruption, state := Failed), env);
    }
  }

  lemma {:induction false} ConnectSetsOtherError(m: Machine, env: Environment)
    requires m.initialized
    ensures Connect(m, env).0.lastError == Connect(m, env).1 != ThermalShutdown
    decreases RetriesLeft(m)
  {
    if ScanFailure(m, env).None? && !env.tunnel(m.attempts) && RetriesLeft(m) > 0 {
      ConnectSetsOtherError(m.(scans := m.scans + 1, attempts := m.attempts + 1, lastError := TunnelFailed,
                               state := Failed, retryCount := m.retryCount + 1), env);
    }
  }

  lemma NoThermalError(m: Machine, env: Environment)
    requires m.initialized && m.lastError != ThermalShutdown
    ensures Recover(m, env).0.lastError != ThermalShutdown
  {
    if m.retryCount < m.policy.maxRetry {
      ConnectSetsOtherError(ForceDisconnect(m.(retryCount := m.retryCount + 1, state := Recovering, resets := m.resets + 1)), env);
    }
  }

  // ---------------------------------------------------------------- why the restrictions are needed

  // Connecting while the link is up: every failure leaves a live GPU behind a machine that says it is
  // disconnected, except a stop at an incompatible device that is not forced off.
  lemma {:induction false} ConnectWhileUp(m: Machine, env: Environment)
    requires m.initialized && LinkUp(m) && Retrying(m)
    ensures var (n, code) := Connect(m, env);
            Inv(n) <==> code == NoError || (code == IncompatibleDevice && !m.policy.forceOnIncompatible)
    decreases RetriesLeft(m)
  {
    if ScanFailure(m, env).None? && !env.tunnel(m.attempts) && RetriesLeft(m) > 0 {
      ConnectWhileUp(m.(scans := m.scans + 1, attempts := m.attempts + 1, lastError := TunnelFailed, state := Failed,
                        retryCount := m.retryCount + 1), env);
    }
  }

  // Recovering while the link is down: a reset that reports success makes the machine say it is
  // connected over a dead link.
  lemma RecoverWhileDown(m: Machine, env: Environment)
    requires Inv(m) && LinkDown(m)
    ensures m.initialized ==>
      (Inv(Recover(m, env).0) <==>
        m.retryCount >= m.policy.maxRetry || (!env.linkReset(m.resets) && !env.hardReset(m.resets)))
    ensures !m.initialized ==> (Inv(Recover(m, env).0) <==> m.retryCount >= m.policy.maxRetry)
  {
    if m.initialized && m.retryCount < m.policy.maxRetry {
      ConnectFromDown(ForceDisconnect(m.(retryCount := m.retryCount + 1, state := Recovering, resets := m.resets + 1)), env);
    }
  }

  // No device is ever found, and every reset reports success.
  function NoDevice(): Environment {
    Environment(_ => None, _ => true, _ => true, _ => true, _ => true)
  }

  /** A connect keeps the invariant, whatever the hardware does, exactly when the link is down before the
      call.  On a live link the environment without a device breaks it. */
  lemma ConnectSafe(m: Machine)
    requires m.initialized && (LinkUp(m) || LinkDown(m)) && Retrying(m)
    ensures (forall env: Environment :: Inv(Connect(m, env).0)) <==> LinkDown(m)
    ensures LinkUp(m) ==> var n := Connect(m, NoDevice()).0; n.state == Disconnected && LinkUp(n) && !Inv(n)
  {
    if LinkDown(m) {
      forall env: Environment ensures Inv(Connect(m, env).0) {
        ConnectFromDown(m, env);
      }
    } else {
      ConnectWhileUp(m, NoDevice());
      assert !Inv(Connect(m, NoDevice()).0);
    }
  }

  /** A recovery keeps the invariant, whatever the hardware does, exactly when the link is up before the
      call or no retry is left.  On a dead link the environment whose resets succeed breaks it. */
  lemma RecoverSafe(m: Machine)
    requires Inv(m)
    ensures (forall env: Environment :: Inv(Recover(m, env).0)) <==> LinkUp(m) || m.retryCount >= m.policy.maxRetry
    ensures LinkDown(m) && m.retryCount < m.policy.maxRetry ==>
              var n := Recover(m, NoDevice()).0; n.state == Connected && LinkDown(n) && !Inv(n)
  {
    if LinkUp(m) {
      forall env: Environment ensures Inv(Recover(m, env).0) {
        RecoverFromUp(m, env);
      }
    } else {
      forall env: Environment | m.retryCount >= m.policy.maxRetry ensures Inv(Recover(m, env).0) {
        RecoverWhileDown(m, env);
      }
      RecoverWhileDown(m, NoDevice());
      assert Inv(Recover(m, NoDevice()).0) <==> m.retryCount >= m.policy.maxRetry;
    }
  }

  /** The conditions cannot be widened: in every state that satisfies the invariant, a call keeps it whatever
      the hardware does exactly when it is allowed. */
  lemma StepSafe(m: Machine, op: Op)
    requires Inv(m)
    ensures (forall env: Environment :: Inv(Step(m, op, env))) <==> Allowed(m, op)
  {
    if Allowed(m, op) {
      forall env: Environment ensures Inv(Step(m, op, env)) {
        StepKeepsInv(m, op, env);
      }
    } else {
      if op.ConnectOp? {
        ConnectSafe(m);
      }
      if op.RecoverOp? {
        RecoverSafe(m);
      }
      assert !Inv(Step(m, op, NoDevice()));
    }
  }

  /** A shutdown keeps the invariant exactly unless an error state hides a live link.  In that case the
      link stays up, and the next initialisation reports it disconnected. */
  lemma ShutdownSafe(m: Machine, policy: Policy)
    requires Inv(m) && m.initialized
    ensures Inv(Shutdown(m)) <==> !(m.state == Failed && LinkUp(m))
    ensures Inv(Initialize(Shutdown(m), policy)) <==> !(m.state == Failed && LinkUp(m))
    ensures m.state == Failed && LinkUp(m) ==>
              var n := Initialize(Shutdown(m), policy); n.state == Disconnected && LinkUp(n)
  {
  }

  // Every step of a connection succeeds.
  function AllWell(): Environment {
    Environment(_ => Some(Device(0x10DE, 75)), _ => true, _ => true, _ => true, _ => true)
  }

  lemma RunStep(m: Machine, ops: seq<Op>, env: Environment)
    requires ops != []
    ensures Run(m, ops, env) == Run(Step(m, ops[0], env), ops[1..], env)
  {
  }

  /** A run that gets there: with automatic recovery off, an uncorrected error leaves the error state
      over a live link, and a restart then calls it disconnected. */
  lemma StrandedLink(policy: Policy, health: Health, seen: Health)
    requires !policy.autoRecovery && seen.temperature < policy.thermalLimit && 0 < seen.uncorrected
    ensures var n := Run(Init(policy, health), [ConnectOp, HealthOp(seen), TickOp, ShutdownOp, InitOp(policy)], AllWell());
            n.initialized && n.state == Disconnected && LinkUp(n)
  {
    var env := AllWell();
    var m := Init(policy, health);
    var ops := [ConnectOp, HealthOp(seen), TickOp, ShutdownOp, InitOp(policy)];
    RunStep(m, ops, env);
    var m1 := Step(m, ConnectOp, env);
    assert ops[1..] == [HealthOp(seen), TickOp, ShutdownOp, InitOp(policy)];
    RunStep(m1, ops[1..], env);
    var m2 := Step(m1, HealthOp(seen), env);
    assert ops[1..][1..] == [TickOp, ShutdownOp, InitOp(policy)];
    RunStep(m2, ops[1..][1..], env);
    var m3 := Step(m2, TickOp, env);
    assert m3.state == Failed && LinkUp(m3);
    assert ops[1..][1..][1..] == [ShutdownOp, InitOp(policy)];
    RunStep(m3, [ShutdownOp, InitOp(policy)], env);
    assert [ShutdownOp, InitOp(policy)][1..] == [InitOp(policy)];
    RunStep(Step(m3, ShutdownOp, env), [InitOp(policy)], env);
  }

  // ---------------------------------------------------------------- what ticks cannot do

  // Metrics that call for no action.
  predicate Healthy(p: Policy, h: Health) {
    h.temperature < p.thermalLimit && h.linkErrorRate <= p.errorThreshold && h.uncorrected == 0
  }

  predicate Watching(ops: seq<Op>, p: Policy) {
    forall i :: 0 <= i < |ops| ==> ops[i] == TickOp || (ops[i].HealthOp? && Healthy(p, ops[i].health))
  }

  /** With healthy metrics from now on, any number of ticks leaves a degraded link degraded. */
  lemma {:induction false} DegradedIsSticky(m: Machine, ops: seq<Op>, env: Environment)
    requires m.state == Degraded && Healthy(m.policy, m.health) && Watching(ops, m.policy)
    ensures Run(m, ops, env).state == Degraded
    decreases |ops|
  {
    if ops != [] {
      DegradedIsSticky(Step(m, ops[0], env), ops[1..], env);
    }
  }

  // The metrics call for a recovery, and the policy allows one.
  predicate CallsForRecovery(m: Machine) {
    && m.health.temperature < m.policy.thermalLimit && m.policy.autoRecovery
    && ((m.health.linkErrorRate > m.policy.errorThreshold * 10.0 && m.health.linkErrorRate > m.policy.errorThreshold)
        || 0 < m.health.uncorrected)
  }

  /** A tick can lead from a degraded link back to a connected one exactly when the metrics are bad enough
      to call for a recovery and a retry is left: improving metrics never do. */
  lemma DegradedPromotion(m: Machine)
    requires Inv(m) && m.state == Degraded
    ensures (exists env: Environment :: Tick(m, env).state == Connected) <==> CallsForRecovery(m) && 0 < m.policy.maxRetry
  {
    if CallsForRecovery(m) && 0 < m.policy.maxRetry {
      assert Tick(m, AllWell()).state == Connected;
    }
  }

  // ---------------------------------------------------------------- what a tick does

  /** A connected link is degraded by a tick, whatever the hardware does, exactly when its error rate is
      over the threshold and at most ten times that, and nothing worse is wrong. */
  lemma DegradesExactly(m: Machine)
    requires Inv(m) && m.state == Connected
    ensures (forall env: Environment :: Tick(m, env).state == Degraded) <==>
            && m.health.temperature < m.policy.thermalLimit && m.health.uncorrected == 0
            && m.policy.errorThreshold < m.health.linkErrorRate <= m.policy.errorThreshold * 10.0
    ensures (forall env: Environment :: Tick(m, env).state == Degraded) ==>
              forall env: Environment :: Tick(m, env) == m.(state := Degraded)
  {
    var env := AllWell();
    if Tick(m, env).state == Degraded {
      RecoverNeverDegrades(m.(lastError := LinkUnstable, state := Failed), env);
      RecoverNeverDegrades(m.(lastError := DataCorruption, state := Failed), env);
    }
  }

  lemma {:induction false} ConnectNeverDegrades(m: Machine, env: Environment)
    requires m.state != Degraded
    ensures Connect(m, env).0.state != Degraded
    decreases RetriesLeft(m)
  {
    if m.initialized && ScanFailure(m, env).None? && !env.tunnel(m.attempts) && RetriesLeft(m) > 0 {
      ConnectNeverDegrades(m.(scans := m.scans + 1, attempts := m.attempts + 1, lastError := TunnelFailed, state := Failed,
                              retryCount := m.retryCount + 1), env);
    }
  }

  lemma RecoverNeverDegrades(m: Machine, env: Environment)
    requires m.state != Degraded
    ensures Recover(m, env).0.state != Degraded
  {
    if m.retryCount < m.policy.maxRetry {
      ConnectNeverDegrades(ForceDisconnect(m.(retryCount := m.retryCount + 1, state := Recovering, resets := m.resets + 1)), env);
    }
  }

  /** A tick changes nothing at all when the metrics are healthy or the link is not watched. */
  lemma QuietTick(m: Machine, env: Environment)
    requires (m.state != Connected && m.state != Degraded)
             || (m.health.temperature < m.policy.thermalLimit && m.health.linkErrorRate <= m.policy.errorThreshold
                 && m.health.uncorrected == 0)
    ensures Tick(m, env) == m
  {
  }

  // The link is so bad that the tick gives it up.
  predicate Critical(m: Machine) {
    && m.health.temperature < m.policy.thermalLimit
    && m.health.linkErrorRate > m.policy.errorThreshold && m.health.linkErrorRate > m.policy.errorThreshold * 10.0
  }

  // The link would do, but data was lost.
  predicate Corrupt(m: Machine) {
    && m.health.temperature < m.policy.thermalLimit && m.health.uncorrected > 0
    && !(m.health.linkErrorRate > m.policy.errorThreshold && m.health.linkErrorRate > m.policy.errorThreshold * 10.0)
  }

  /** With automatic recovery off: which metrics leave which error.  The link itself is left up. */
  lemma ErrorsLeft(m: Machine, env: Environment)
    requires Inv(m) && (m.state == Connected || m.state == Degraded) && !m.policy.autoRecovery
    ensures var n := Tick(m, env);
            && (n.lastError == LinkUnstable <==> Critical(m))
            && (n.lastError == DataCorruption <==> Corrupt(m))
            && (n.lastError == NoError <==> !Critical(m) && !Corrupt(m) && m.health.temperature < m.policy.thermalLimit)
            && (n.state == Failed <==> Critical(m) || Corrupt(m))
            && (n.state == Failed ==> n == m.(state := Failed, lastError := n.lastError) && LinkUp(n))
  {
  }

  lemma {:induction false} ConnectResetsNothing(m: Machine, env: Environment)
    ensures Connect(m, env).0.resets == m.resets
    decreases RetriesLeft(m)
  {
    if m.initialized && ScanFailure(m, env).None? && !env.tunnel(m.attempts) && RetriesLeft(m) > 0 {
      ConnectResetsNothing(m.(scans := m.scans + 1, attempts := m.attempts + 1, lastError := TunnelFailed, state := Failed,
                              retryCount := m.retryCount + 1), env);
    }
  }

  /** With automatic recovery on: a recovery is tried exactly for those metrics, as long as the policy
      allows one; if it allows none the link goes down with the error on record. */
  lemma RecoveryTried(m: Machine, env: Environment)
    requires Inv(m) && (m.state == Connected || m.state == Degraded) && m.policy.autoRecovery
    ensures Tick(m, env).resets == m.resets + (if (Critical(m) || Corrupt(m)) && 0 < m.policy.maxRetry then 1 else 0)
    ensures (Critical(m) || Corrupt(m)) && m.policy.maxRetry <= 0 ==>
              var n := Tick(m, env);
              n.state == Disconnected && LinkDown(n) && n.lastError == if Critical(m) then LinkUnstable else DataCorruption
  {
    var r := m.(retryCount := m.retryCount + 1, state := Recovering, resets := m.resets + 1);
    ConnectResetsNothing(ForceDisconnect(r.(lastError := LinkUnstable)), env);
    ConnectResetsNothing(ForceDisconnect(r.(lastError := DataCorruption)), env);
  }

  // ---------------------------------------------------------------- what the calls do, outcome by outcome

  /** A device is refused exactly when its vendor is not 0x10DE or its supply is below 75 W; then no tunnel
      is tried, and the policy decides between DISCONNECTED and an error. */
  lemma RefusedDevice(m: Machine, env: Environment)
    requires m.initialized && env.detect(m.scans).Some?
    ensures var d := env.detect(m.scans).value;
            var (n, code) := Connect(m, env);
            && (n.attempts == m.attempts <==> d.vendor != 0x10DE || d.powerBudget < 75)
            && (d.vendor != 0x10DE || d.powerBudget < 75 ==>
                 && code == IncompatibleDevice
                 && n == m.(scans := m.scans + 1, lastError := IncompatibleDevice,
                            state := if m.policy.forceOnIncompatible then Disconnected else Failed))
  {
    if Compatible(env.detect(m.scans).value) {
      ConnectAttempts(m, env);
    }
  }

  lemma {:induction false} ConnectAttempts(m: Machine, env: Environment)
    ensures m.attempts <= Connect(m, env).0.attempts
    ensures m.initialized && ScanFailure(m, env).None? ==> m.attempts < Connect(m, env).0.attempts
    decreases RetriesLeft(m)
  {
    if m.initialized && ScanFailure(m, env).None? && !env.tunnel(m.attempts) && RetriesLeft(m) > 0 {
      ConnectAttempts(m.(scans := m.scans + 1, attempts := m.attempts + 1, lastError := TunnelFailed, state := Failed,
                         retryCount := m.retryCount + 1), env);
    }
  }

  // A device that is accepted is there.
  predicate Usable(m: Machine, env: Environment) {
    && env.detect(m.scans).Some? && env.detect(m.scans).value.vendor == 0x10DE
    && env.detect(m.scans).value.powerBudget >= 75
  }

  /** The other outcomes of a connect.  Only a failed tunnel is tried again, with one retry more on record
      and only under automatic recovery; a GPU that does not start takes the tunnel down at once. */
  lemma ConnectOutcomes(m: Machine, env: Environment)
    ensures !m.initialized ==> Connect(m, env) == (m, DeviceNotFound)
    ensures m.initialized && env.detect(m.scans).None? ==>
              Connect(m, env) == (m.(scans := m.scans + 1, lastError := DeviceNotFound, state := Disconnected), DeviceNotFound)
    ensures m.initialized && Usable(m, env) ==>
              var tried := m.(scans := m.scans + 1, attempts := m.attempts + 1);
              && (env.tunnel(m.attempts) && env.gpu(m.attempts) ==>
                   Connect(m, env) == (tried.(state := Connected, lastError := NoError, retryCount := 0, tunnelUp := true,
                                              gpuUp := true, health := Health(35, 0.0, 0)), NoError))
              && (env.tunnel(m.attempts) && !env.gpu(m.attempts) ==>
                   Connect(m, env) == (tried.(state := Disconnected, lastError := GpuInitFailed, tunnelUp := false), GpuInitFailed))
              && (!env.tunnel(m.attempts) && !(m.policy.autoRecovery && m.retryCount < m.policy.maxRetry) ==>
                   Connect(m, env) == (tried.(state := Disconnected, lastError := TunnelFailed), TunnelFailed))
              && (!env.tunnel(m.attempts) && m.policy.autoRecovery && m.retryCount < m.policy.maxRetry ==>
                   Connect(m, env) == Connect(tried.(state := Failed, lastError := TunnelFailed, retryCount := m.retryCount + 1), env))
  {
  }

  /** The outcomes of a recovery.  A link reset clears the two error counters, a hard reset keeps them;
      when both fail the link is taken down and connected anew. */
  lemma RecoverOutcomes(m: Machine, env: Environment)
    requires m.initialized
    ensures m.retryCount >= m.policy.maxRetry ==>
              Recover(m, env) == (m.(state := Disconnected, tunnelUp := false, gpuUp := false), RecoveryFailed)
    ensures m.retryCount < m.policy.maxRetry ==>
              var r := m.(resets := m.resets + 1);
              && (env.linkReset(m.resets) ==>
                   Recover(m, env) == (r.(state := Connected, lastError := NoError, retryCount := 0,
                                          health := Health(m.health.temperature, 0.0, 0)), NoError))
              && (!env.linkReset(m.resets) && env.hardReset(m.resets) ==>
                   Recover(m, env) == (r.(state := Connected, lastError := NoError, retryCount := 0), NoError))
              && (!env.linkReset(m.resets) && !env.hardReset(m.resets) ==>
                   Recover(m, env) == Connect(r.(state := Disconnected, tunnelUp := false, gpuUp := false,
                                                 retryCount := m.retryCount + 1), env))
  {
  }

  /** A safe disconnect clears the error and a forced one keeps it; shutdown takes the link down exactly when
      it is reported up; initialisation takes over the policy and leaves health and link alone. */
  lemma OtherOutcomes(m: Machine, policy: Policy, health: Health, env: Environment)
    ensures var down := m.(state := Disconnected, tunnelUp := false, gpuUp := false);
            var reportedUp := m.state == Connected || m.state == Degraded;
            && Step(m, ForceDisconnectOp, env) == (if m.initialized then down else m)
            && Step(m, SafeDisconnectOp, env) == (if m.initialized then down.(lastError := NoError) else m)
            && Step(m, ShutdownOp, env) ==
                 (if m.initialized && reportedUp then down.(lastError := NoError) else m).(initialized := false)
    ensures Step(m, InitOp(policy), env) ==
              if m.initialized then m else
              m.(initialized := true, policy := policy, state := Disconnected, lastError := NoError, retryCount := 0)
    ensures Step(m, HealthOp(health), env) == m.(health := health)
    ensures Step(m, TickOp, env) == Tick(m, env)
    ensures Step(m, ConnectOp, env) == Connect(m, env).0 && Step(m, RecoverOp, env) == Recover(m, env).0
  {
  }

  // Link resets fail and hard resets succeed.
  ghost predicate OnlyHardResets(env: Environment) {
    forall i :: !env.linkReset(i) && env.hardReset(i)
  }

  function Ticks(n: nat): (ops: seq<Op>)
    ensures |ops| == n
  {
    seq(n, i => TickOp)
  }

  /** The retry limit does not bound this: a hard reset keeps the error counters and clears the retry count,
      so the next tick starts the same recovery, and so on through any number of ticks. */
  lemma {:induction false} HardResetForever(m: Machine, env: Environment, n: nat)
    requires Inv(m) && m.state == Connected && m.policy.autoRecovery && 0 < m.policy.maxRetry
    requires (Critical(m) || Corrupt(m)) && OnlyHardResets(env)
    ensures Run(m, Ticks(n), env) == m.(resets := m.resets + n)
    decreases n
  {
    if n > 0 {
      var ops := Ticks(n);
      assert ops[0] == TickOp && ops[1..] == Ticks(n - 1);
      assert Tick(m, env) == m.(resets := m.resets + 1);
      HardResetForever(m.(resets := m.resets + 1), env, n - 1);
    }
  }
}
