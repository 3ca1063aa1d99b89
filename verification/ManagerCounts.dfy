/** What the call counters of the memory manager say about a run. */
module ManagerCounts {
  import opened Words
  import PoolSpec
  import opened ManagerSpec

  // What the call reports.
  function StatusOf(m: Manager, op: Op): Status
    requires |m.hosts| == |m.managed.used| && 0 < m.device.page && 0 < m.managed.page
  {
    match op
    case DeviceMalloc(request, ok) => MallocDevice(m, request, ok).1
    case DeviceFree(ptr) => FreeDevice(m, ptr).1
    case ManagedMalloc(request, enabled, ok, host) => MallocManaged(m, request, enabled, ok, host).1
    case ManagedFree(ptr) => FreeManaged(m, ptr).1
  }

  // The calls of the run that report success: mallocs, or frees.
  ghost function Successes(m: Manager, ops: seq<Op>, mallocs: bool): nat
    requires Inv(m) && LegalRun(m, ops)
    decreases |ops|
  {
    if ops == [] then 0 else
    (StepKeepsInv(m, ops[0]);
     (if (ops[0].DeviceMalloc? || ops[0].ManagedMalloc?) == mallocs && StatusOf(m, ops[0]) == Success then 1 else 0)
     + Successes(Step(m, ops[0]), ops[1..], mallocs))
  }

  lemma StepCounts(m: Manager, op: Op)
    requires Inv(m)
    ensures var done := if StatusOf(m, op) == Success then 1 else 0;
            if op.DeviceMalloc? || op.ManagedMalloc?
            then Step(m, op).allocs == m.allocs + done && Step(m, op).frees == m.frees
            else Step(m, op).allocs == m.allocs && Step(m, op).frees == m.frees + done
  {
    InvParts(m);
    match op
    case DeviceMalloc(request, ok) =>
      MallocDeviceIs(m, request, ok);
      hide MallocDevice, PoolSpec.Alloc, PoolSpec.Grants, Inv, PoolSpec.Inv, Wrap;
    case DeviceFree(ptr) =>
      FreeDeviceIs(m, ptr);
      hide FreeDevice, FindBlock, PoolSpec.Find, FindManaged, PoolSpec.FreeAt, PoolSpec.FreeForeign, PoolSpec.Robbed, Inv, PoolSpec.Inv, Wrap;
    case ManagedMalloc(request, enabled, ok, host) =>
      MallocManagedIs(m, request, enabled, ok, host);
      hide MallocManaged, PoolSpec.Alloc, PoolSpec.Grants, PoolSpec.FreeAt, Inv, PoolSpec.Inv, Wrap;
    case ManagedFree(ptr) =>
      FreeManagedIs(m, ptr);
      hide FreeManaged, FindBlock, PoolSpec.Find, FindManaged, PoolSpec.FreeAt, PoolSpec.FreeForeign, PoolSpec.Robbed, Inv, PoolSpec.Inv, Wrap;
  }

  /** Over every run the two call counters grow by exactly the mallocs and the frees that report success. */
  lemma {:induction false} RunCounts(m: Manager, ops: seq<Op>)
    requires Inv(m) && LegalRun(m, ops)
    ensures Run(m, ops).allocs == m.allocs + Successes(m, ops, true)
    ensures Run(m, ops).frees == m.frees + Successes(m, ops, false)
    decreases |ops|
  {
    if ops != [] {
      StepKeepsInv(m, ops[0]);
      StepCounts(m, ops[0]);
      hide Step, StatusOf, Legal, PoolSpec.Inv, Live;
      RunCounts(Step(m, ops[0]), ops[1..]);
    }
  }
}
