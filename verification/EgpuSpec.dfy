/**
 The connection machine of egpu_safety.c as functions on values.  The outcomes of the hardware
 steps (detection, tunnel set-up, GPU start, link reset, hard reset) come from an arbitrary
 environment; two extra fields record whether the tunnel and the GPU are up.
 */
module EgpuSpec {

  datatype Option<+T> = None | Some(value: T)

  datatype State =
    | Disconnected | Detecting | Authenticating | TunnelSetup | Initializing | Connected | Degraded
    | Failed | Recovering | SafeDisconnecting | ForceDisconnecting

  datatype Error =
    | NoError | DeviceNotFound | IncompatibleDevice | TunnelFailed | LinkUnstable | GpuInitFailed
    | DataCorruption | ThermalShutdown | RecoveryFailed

  datatype Policy = Policy(
    maxRetry: int, autoRecovery: bool, forceOnIncompatible: bool, thermalLimit: int, errorThreshold: real)

  datatype Device = Device(vendor: nat, powerBudget: int)

  datatype Health = Health(temperature: int, linkErrorRate: real, uncorrected: nat)

  // What each hardware step does, as a function of how often it was started before.
  datatype Environment = Environment(
    detect: nat -> Option<Device>, tunnel: nat -> bool, gpu: nat -> bool,
    linkReset: nat -> bool, hardReset: nat -> bool)

  // `scans`, `attempts` and `resets` count detections, tunnel set-ups and recoveries so far.
  datatype Machine = Machine(
    initialized: bool, policy: Policy, state: State, lastError: Error, retryCount: int, health: Health,
    tunnelUp: bool, gpuUp: bool, scans: nat, attempts: nat, resets: nat)

  // check_device_compatible: an NVIDIA device with at least 75 W; bandwidth only draws a warning.
  predicate Compatible(d: Device) { d.vendor == 0x10DE && 75 <= d.powerBudget }

  function RetriesLeft(m: Machine): nat {
    if m.policy.autoRecovery && m.retryCount < m.policy.maxRetry then m.policy.maxRetry - m.retryCount else 0
  }

  // One pass of egpu_connect up to the tunnel set-up; what follows depends on its outcome.
  function ScanFailure(m: Machine, env: Environment): Option<(Machine, Error)> {
    var m1 := m.(scans := m.scans + 1);
    match env.detect(m.scans)
    case None => Some((m1.(lastError := DeviceNotFound, state := Disconnected), DeviceNotFound))
    case Some(d) =>
      if Compatible(d) then None else
      Some((m1.(lastError := IncompatibleDevice,
                state := if m.policy.forceOnIncompatible then Disconnected else Failed), IncompatibleDevice))
  }

  function Connect(m: Machine, env: Environment): (Machine, Error)
    decreases RetriesLeft(m)
  {
    if !m.initialized then (m, DeviceNotFound) else
    var failure := ScanFailure(m, env);
    if failure.Some? then failure.value else
    var tried := m.(scans := m.scans + 1, attempts := m.attempts + 1);
    if !env.tunnel(m.attempts) then
      var failed := tried.(lastError := TunnelFailed, state := Failed);
      if RetriesLeft(m) > 0 then Connect(failed.(retryCount := m.retryCount + 1), env)
      else (failed.(state := Disconnected), TunnelFailed)
    else Started(tried.(tunnelUp := true, state := Initializing), env.gpu(m.attempts))
  }

  // The end of egpu_connect, with the tunnel up: the GPU starts or the tunnel is taken down again.
  function Started(m: Machine, gpuOk: bool): (Machine, Error) {
    if !gpuOk then (m.(lastError := GpuInitFailed, state := Disconnected, tunnelUp := false), GpuInitFailed)
    else (m.(state := Connected, lastError := NoError, retryCount := 0, gpuUp := true, health := Health(35, 0.0, 0)), NoError)
  }

  // One pass of Connect, outcome by outcome.
  lemma ConnectIs(m: Machine, env: Environment)
    ensures !m.initialized ==> Connect(m, env) == (m, DeviceNotFound)
    ensures m.initialized ==>
      var failure := ScanFailure(m, env);
      var tried := m.(scans := m.scans + 1, attempts := m.attempts + 1);
      var failed := tried.(lastError := TunnelFailed, state := Failed);
      && (failure.Some? ==> Connect(m, env) == failure.value)
      && (failure == None && !env.tunnel(m.attempts) ==>
            Connect(m, env) ==
              if RetriesLeft(m) > 0 then Connect(failed.(retryCount := m.retryCount + 1), env)
              else (failed.(state := Disconnected), TunnelFailed))
      && (failure == None && env.tunnel(m.attempts) ==>
            Connect(m, env) == Started(tried.(tunnelUp := true, state := Initializing), env.gpu(m.attempts)))
  {
    hide ScanFailure;
  }

  function ForceDisconnect(m: Machine): Machine {
    if !m.initialized then m else m.(state := Disconnected, tunnelUp := false, gpuUp := false)
  }

  function SafeDisconnect(m: Machine): Machine {
    if !m.initialized then m else
    m.(state := Disconnected, lastError := NoError, tunnelUp := false, gpuUp := false)
  }

  function Recover(m: Machine, env: Environment): (Machine, Error) {
    if m.retryCount >= m.policy.maxRetry then (ForceDisconnect(m), RecoveryFailed) else
    var r := m.(retryCount := m.retryCount + 1, state := Recovering, resets := m.resets + 1);
    var back := r.(state := Connected, lastError := NoError, retryCount := 0);
    if env.linkReset(m.resets) then
      (back.(health := m.health.(uncorrected := 0, linkErrorRate := 0.0)), NoError)
    else if env.hardReset(m.resets) then (back, NoError)
    else Connect(ForceDisconnect(r), env)
  }

  function RecoverIfEnabled(m: Machine, env: Environment): Machine {
    if m.policy.autoRecovery then Recover(m, env).0 else m
  }

  // One pass of the monitor loop.
  function Tick(m: Machine, env: Environment): Machine {
    if m.state != Connected && m.state != Degraded then m
    else if m.health.temperature >= m.policy.thermalLimit then
      ForceDisconnect(m.(lastError := ThermalShutdown, state := Failed))
    else if m.health.linkErrorRate > m.policy.errorThreshold * 10.0
            && m.health.linkErrorRate > m.policy.errorThreshold then
      RecoverIfEnabled(m.(lastError := LinkUnstable, state := Failed), env)
    else
      var d := if m.health.linkErrorRate > m.policy.errorThreshold then m.(state := Degraded) else m;
      if m.health.uncorrected > 0
      then RecoverIfEnabled(d.(lastError := DataCorruption, state := Failed), env)
      else d
  }

  // egpu_safety_shutdown: only a link that is reported connected or degraded is taken down.
  function Shutdown(m: Machine): Machine {
    if !m.initialized then m else
    (if m.state == Connected || m.state == Degraded then SafeDisconnect(m) else m).(initialized := false)
  }

  // egpu_safety_init: a second call does nothing; health and the link are left as they are.
  function Initialize(m: Machine, policy: Policy): Machine {
    if m.initialized then m else
    m.(initialized := true, policy := policy, state := Disconnected, lastError := NoError, retryCount := 0)
  }

  datatype Op =
    | ConnectOp | RecoverOp | SafeDisconnectOp | ForceDisconnectOp | TickOp | HealthOp(health: Health)
    | ShutdownOp | InitOp(policy: Policy)

  function Step(m: Machine, op: Op, env: Environment): Machine {
    match op
    case ConnectOp => Connect(m, env).0
    case RecoverOp => Recover(m, env).0
    case SafeDisconnectOp => SafeDisconnect(m)
    case ForceDisconnectOp => ForceDisconnect(m)
    case TickOp => Tick(m, env)
    case HealthOp(h) => m.(health := h)
    case ShutdownOp => Shutdown(m)
    case InitOp(policy) => Initialize(m, policy)
  }

  function Run(m: Machine, ops: seq<Op>, env: Environment): Machine
    decreases |ops|
  {
    if ops == [] then m else Run(Step(m, ops[0], env), ops[1..], env)
  }

  function Init(policy: Policy, health: Health): Machine {
    Machine(true, policy, Disconnected, NoError, 0, health, false, false, 0, 0, 0)
  }
}
