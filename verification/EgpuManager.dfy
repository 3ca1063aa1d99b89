/**
 The global state of egpu_safety.c and the calls that update it field by field.  Each call is
 proved to take the abstract machine from its old value to the one `EgpuSpec` computes.
 */
module EgpuManager {
  import opened EgpuSpec

  class Manager {
    var initialized: bool
    var policy: Policy
    var state: State
    var lastError: Error
    var retryCount: int
    var health: Health
    // Where the environment is in its sequences of outcomes.
    var scans: nat
    var attempts: nat
    var resets: nat

    ghost var tunnelUp: bool
    ghost var gpuUp: bool

    ghost function View(): Machine
      reads this
    {
      Machine(initialized, policy, state, lastError, retryCount, health, tunnelUp, gpuUp, scans, attempts, resets)
    }

    /** egpu_safety_init. */
    constructor (policy: Policy)
      ensures View() == Init(policy, Health(0, 0.0, 0))
            == Machine(true, policy, Disconnected, NoError, 0, Health(0, 0.0, 0), false, false, 0, 0, 0)
    {
      this.policy := policy;
      state, lastError, retryCount, health := Disconnected, NoError, 0, Health(0, 0.0, 0);
      initialized := true;
      scans, attempts, resets := 0, 0, 0;
      tunnelUp, gpuUp := false, false;
    }

    /** egpu_safety_init on a manager that exists already. */
    method SafetyInit(policy: Policy)
      modifies this
      ensures View() == Initialize(old(View()), policy)
    {
      if initialized {
        return;
      }
      this.policy := policy;
      state := Disconnected;
      lastError := NoError;
      retryCount := 0;
      initialized := true;
    }

    /** egpu_safety_shutdown. */
    method SafetyShutdown()
      modifies this
      ensures View() == Shutdown(old(View()))
    {
      if !initialized {
        return;
      }
      if state == Connected || state == Degraded {
        SafeDisconnectDevice();
      }
      initialized := false;
    }

    // The part of egpu_connect that looks for a usable device.
    method FindDevice(env: Environment) returns (failure: Option<Error>)
      modifies this`state, this`scans, this`lastError
      ensures var was := old(View());
              match ScanFailure(was, env)
              case Some((m, code)) => failure == Some(code) && View() == m
              case None => failure == None && View() == was.(scans := was.scans + 1, state := Detecting)
    {
      state := Detecting;
      var found := env.detect(scans);
      scans := scans + 1;
      if found.None? {
        lastError := DeviceNotFound;
        state := Disconnected;
        return Some(DeviceNotFound);
      }
      if !Compatible(found.value) {
        lastError := IncompatibleDevice;
        if policy.forceOnIncompatible {
          state := ForceDisconnecting;
          state := Disconnected;
        } else {
          state := Failed;
        }
        return Some(IncompatibleDevice);
      }
      return None;
    }

    /** egpu_connect. */
    method ConnectDevice(env: Environment) returns (code: Error)
      modifies this
      ensures (View(), code) == Connect(old(View()), env)
      decreases RetriesLeft(View())
    {
      ConnectIs(View(), env);
      hide ScanFailure, Connect, Started;
      if !initialized {
        return DeviceNotFound;
      }
      var failure := FindDevice(env);
      if failure.Some? {
        return failure.value;
      }
      state := Authenticating;
      state := TunnelSetup;
      var attempt := attempts;
      attempts := attempts + 1;
      if !env.tunnel(attempt) {
        lastError := TunnelFailed;
        state := Failed;
        if policy.autoRecovery && retryCount < policy.maxRetry {
          retryCount := retryCount + 1;
          code := ConnectDevice(env);
        } else {
          state := Disconnected;
          code := TunnelFailed;
        }
      } else {
        tunnelUp := true;
        state := Initializing;
        code := StartGpu(env.gpu(attempt));
      }
    }

    // The last part of egpu_connect, after the tunnel is up.
    method StartGpu(gpuOk: bool) returns (code: Error)
      modifies this`state, this`lastError, this`retryCount, this`health, this`tunnelUp, this`gpuUp
      ensures (View(), code) == Started(old(View()), gpuOk)
    {
      if !gpuOk {
        lastError := GpuInitFailed;
        state := Failed;
        tunnelUp := false;
        state := Disconnected;
        return GpuInitFailed;
      }
      gpuUp := true;
      health := Health(35, 0.0, 0);
      state := Connected;
      lastError := NoError;
      retryCount := 0;
      return NoError;
    }

    /** egpu_force_disconnect. */
    method ForceDisconnectDevice()
      modifies this
      ensures View() == ForceDisconnect(old(View()))
    {
      if !initialized {
        return;
      }
      state := ForceDisconnecting;
      gpuUp := false;
      tunnelUp := false;
      state := Disconnected;
    }

    /** egpu_safe_disconnect. */
    method SafeDisconnectDevice()
      modifies this
      ensures View() == SafeDisconnect(old(View()))
    {
      if !initialized {
        return;
      }
      state := SafeDisconnecting;
      gpuUp := false;
      tunnelUp := false;
      state := Disconnected;
      lastError := NoError;
    }

    /** egpu_try_recovery. */
    method TryRecovery(env: Environment) returns (code: Error)
      modifies this
      ensures (View(), code) == Recover(old(View()), env)
    {
      if retryCount >= policy.maxRetry {
        ForceDisconnectDevice();
        return RecoveryFailed;
      }
      retryCount := retryCount + 1;
      state := Recovering;
      var reset := resets;
      resets := resets + 1;
      if env.linkReset(reset) {
        state := Connected;
        lastError := NoError;
        retryCount := 0;
        health := health.(uncorrected := 0, linkErrorRate := 0.0);
        return NoError;
      }
      if env.hardReset(reset) {
        state := Connected;
        lastError := NoError;
        retryCount := 0;
        return NoError;
      }
      ForceDisconnectDevice();
      code := ConnectDevice(env);
    }

    method RecoverIfEnabled(env: Environment)
      modifies this
      ensures View() == EgpuSpec.RecoverIfEnabled(old(View()), env)
    {
      if policy.autoRecovery {
        var _ := TryRecovery(env);
      }
    }

    /** One pass of the loop in monitor_thread_func. */
    method MonitorTick(env: Environment)
      modifies this
      ensures View() == Tick(old(View()), env)
    {
      if state != Connected && state != Degraded {
        return;
      }
      if health.temperature >= policy.thermalLimit {
        lastError := ThermalShutdown;
        state := Failed;
        ForceDisconnectDevice();
        return;
      }
      if health.linkErrorRate > policy.errorThreshold {
        if health.linkErrorRate > policy.errorThreshold * 10.0 {
          lastError := LinkUnstable;
          state := Failed;
          RecoverIfEnabled(env);
          return;
        } else {
          state := Degraded;
        }
      }
      if health.uncorrected > 0 {
        lastError := DataCorruption;
        state := Failed;
        RecoverIfEnabled(env);
      }
    }
  }
}
