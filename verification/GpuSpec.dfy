/**
 The device-memory tables of nvidia_gpu.c as values.  Every GPU keeps an ordered table of records
 with their bytes and a table of channels; all of them draw addresses from one counter.
 Host allocations made on the way (`storeOk`, `recordOk`, `channelOk`) may fail.
 */
module GpuSpec {
  import opened Words

  const MAX_RECORDS: nat := 4096
  const MAX_CHANNELS: nat := 64
  const DEVICE_PAGE: nat := 4096
  const PUSH_BUFFER: nat := 1048576

  // The content of one device byte; nothing here computes with it.
  newtype Byte = b: int | 0 <= b < 256

  datatype Kind = SystemMem | VideoMem | PeerMem

  datatype Status = Success | InvalidParam | NoMemory

  // A record's size field always equals the length of its backing store.
  datatype Record = Record(addr: nat, kind: Kind, bytes: seq<Byte>) {
    function End(): nat { addr + |bytes| }

    predicate Has(x: int) { addr <= x < addr + |bytes| }

    // All n bytes from x on lie in the record.
    predicate Holds(x: nat, n: nat) { addr <= x && x + n <= addr + |bytes| }
  }

  datatype Channel = Channel(id: nat, base: nat)

  datatype Gpu = Gpu(records: seq<Record>, channels: seq<Channel>, vramSize: nat, vramFree: nat, transferred: nat)

  function Zeros(n: nat): (z: seq<Byte>)
    ensures |z| == n
  {
    seq(n, i => 0)
  }

  function Credit(kind: Kind, n: nat): nat { if kind == VideoMem then n else 0 }

  // ---------------------------------------------------------------- the table of records

  // Index of the first record that starts at addr, or the length of the table.
  function IndexAt(records: seq<Record>, addr: nat): (i: nat)
    ensures i <= |records|
    ensures i < |records| ==> records[i].addr == addr
    ensures forall j :: 0 <= j < i ==> records[j].addr != addr
  {
    if records == [] || records[0].addr == addr then 0 else 1 + IndexAt(records[1..], addr)
  }

  // Index of the first record that contains x, or the length of the table.
  function IndexOf(records: seq<Record>, x: nat): (i: nat)
    ensures i <= |records|
    ensures i < |records| ==> records[i].Has(x)
    ensures forall j :: 0 <= j < i ==> !records[j].Has(x)
  {
    if records == [] || records[0].Has(x) then 0 else 1 + IndexOf(records[1..], x)
  }

  function RemoveIndex<T>(s: seq<T>, i: nat): seq<T> {
    if i < |s| then s[..i] + s[i + 1..] else s
  }

  // nv_gpu_free_memory: VRAM is credited from the caller's description, the record goes by address.
  function FreeMemory(g: Gpu, addr: nat, kind: Kind, size: nat): Gpu {
    g.(vramFree := g.vramFree + Credit(kind, size),
       records := RemoveIndex(g.records, IndexAt(g.records, addr)))
  }

  // What nv_gpu_alloc_memory says before it takes an address.
  function AllocCheck(g: Gpu, size: nat, kind: Kind): Status {
    if size == 0 then InvalidParam
    else if |g.records| >= MAX_RECORDS then NoMemory
    else if kind == VideoMem && AlignUp(size, DEVICE_PAGE) > g.vramFree then NoMemory
    else Success
  }

  // The whole call: the new table, the next address (taken even when the host runs out), the result.
  function AllocMemory(g: Gpu, next: nat, size: nat, kind: Kind, storeOk: bool, recordOk: bool): (Gpu, nat, Status) {
    var check := AllocCheck(g, size, kind);
    if check != Success then (g, next, check) else
    var n := AlignUp(size, DEVICE_PAGE);
    if !storeOk || !recordOk then (g, next + n, NoMemory) else
    (g.(vramFree := g.vramFree - Credit(kind, n), records := g.records + [Record(next, kind, Zeros(n))]),
     next + n, Success)
  }

  // ---------------------------------------------------------------- copies

  // bytes with data written over it from offset on.
  function Overwrite(bytes: seq<Byte>, offset: nat, data: seq<Byte>): (r: seq<Byte>)
    requires offset + |data| <= |bytes|
    ensures |r| == |bytes|
  {
    bytes[..offset] + data + bytes[offset + |data|..]
  }

  // A copy acts only when the record found for the start of the range holds all of it.
  predicate Covered(records: seq<Record>, x: nat, n: nat) {
    var i := IndexOf(records, x);
    i < |records| && records[i].Holds(x, n)
  }

  function Write(records: seq<Record>, x: nat, data: seq<Byte>): seq<Record> {
    if !Covered(records, x, |data|) then records else
      var i := IndexOf(records, x);
      records[i := records[i].(bytes := Overwrite(records[i].bytes, x - records[i].addr, data))]
  }

  function Read(records: seq<Record>, x: nat, n: nat): (r: seq<Byte>)
    requires Covered(records, x, n)
    ensures |r| == n
  {
    var r := records[IndexOf(records, x)];
    r.bytes[x - r.addr..x - r.addr + n]
  }

  function CopyToDevice(g: Gpu, dst: nat, data: seq<Byte>): Gpu {
    if data == [] then g else g.(records := Write(g.records, dst, data), transferred := g.transferred + |data|)
  }

  // The host buffer after the copy: untouched when the range is not covered.
  function CopyToHost(g: Gpu, buffer: seq<Byte>, src: nat): seq<Byte> {
    if Covered(g.records, src, |buffer|) then Read(g.records, src, |buffer|) else buffer
  }

  function CopyOnDevice(g: Gpu, dst: nat, src: nat, n: nat): Gpu {
    if n == 0 || !Covered(g.records, src, n) then g else
    g.(records := Write(g.records, dst, Read(g.records, src, n)))
  }

  // The code's own test for a range of n bytes that starts inside the record: a sum of two 64-bit words.
  predicate TestedInside(r: Record, x: nat, n: nat)
    requires r.Has(x)
  {
    Wrap((x - r.addr) + n) <= |r.bytes|
  }

  /** The test is right exactly when that sum does not wrap. */
  lemma TestRight(r: Record, x: nat, n: nat)
    requires r.Has(x) && |r.bytes| < WORD && n < WORD
    ensures (TestedInside(r, x, n) <==> r.Holds(x, n)) <==> (x - r.addr) + n < WORD
    ensures r.Holds(x, n) ==> TestedInside(r, x, n)
  {
    var sum := (x - r.addr) + n;
    if sum < WORD {
      WrapSmall(sum);
    } else {
      WrapPast(sum);
    }
    hide Wrap;
  }

  lemma WrapPast(sum: nat)
    requires WORD <= sum < 2 * WORD
    ensures Wrap(sum) == sum - WORD
  {
  }

  /** A copy of 2^64 - 4096 bytes from offset 4096 on passes the test, whatever the record's size is. */
  lemma WrappedTestPasses(r: Record)
    requires 4096 < |r.bytes| < WORD
    ensures r.Has(r.addr + 4096) && TestedInside(r, r.addr + 4096, WORD - 4096) && !r.Holds(r.addr + 4096, WORD - 4096)
  {
  }

  // ---------------------------------------------------------------- channels

  function CreateChannel(g: Gpu, next: nat, channelOk: bool, storeOk: bool, recordOk: bool): (Gpu, nat, Status) {
    if |g.channels| >= MAX_CHANNELS || !channelOk then (g, next, NoMemory) else
    var (g', next', status) := AllocMemory(g, next, PUSH_BUFFER, SystemMem, storeOk, recordOk);
    if status != Success then (g', next', status) else
    (g'.(channels := g.channels + [Channel(|g.channels|, next)]), next', Success)
  }

  function DestroyChannel(g: Gpu, k: nat): Gpu
    requires k < |g.channels|
  {
    FreeMemory(g, g.channels[k].base, SystemMem, 0).(channels := RemoveIndex(g.channels, k))
  }

  // ---------------------------------------------------------------- all GPUs together

  datatype System = System(gpus: seq<Gpu>, next: nat)

  // One call on one GPU context.  `Free` carries the caller's description of the memory, `Destroy`
  // the position of the channel.
  datatype Op =
    | Alloc(gpu: nat, size: nat, kind: Kind, storeOk: bool, recordOk: bool)
    | Free(gpu: nat, addr: nat, freedKind: Kind, freedSize: nat)
    | ToDevice(gpu: nat, dst: nat, data: seq<Byte>)
    | ToHost(gpu: nat, from: nat, count: nat)
    | OnDevice(gpu: nat, dst: nat, src: nat, n: nat)
    | Create(gpu: nat, channelOk: bool, storeOk: bool, recordOk: bool)
    | Destroy(gpu: nat, k: nat)

  // memcpy is undefined on ranges that overlap; a device-to-device copy gets to it when both are covered.
  predicate MayCopy(records: seq<Record>, dst: nat, src: nat, n: nat) {
    Covered(records, src, n) && Covered(records, dst, n) ==> src + n <= dst || dst + n <= src
  }

  // Requests round up without overflow, memcpy is defined, and a channel is destroyed while it is in the
  // table.
  predicate Legal(s: System, op: Op) {
    && op.gpu < |s.gpus|
    && (op.Alloc? ==> op.size + DEVICE_PAGE - 1 < WORD)
    && (op.OnDevice? ==> MayCopy(s.gpus[op.gpu].records, op.dst, op.src, op.n))
    && (op.Destroy? ==> op.k < |s.gpus[op.gpu].channels|)
  }

  function StepGpu(g: Gpu, next: nat, op: Op): (Gpu, nat)
    requires op.Destroy? ==> op.k < |g.channels|
  {
    match op
    case Alloc(_, size, kind, storeOk, recordOk) =>
      var (g', next', _) := AllocMemory(g, next, size, kind, storeOk, recordOk);
      (g', next')
    case Free(_, addr, kind, size) => (FreeMemory(g, addr, kind, size), next)
    case ToDevice(_, dst, data) => (CopyToDevice(g, dst, data), next)
    case ToHost(_, _, count) => (g.(transferred := g.transferred + count), next)
    case OnDevice(_, dst, src, n) => (CopyOnDevice(g, dst, src, n), next)
    case Create(_, channelOk, storeOk, recordOk) =>
      var (g', next', _) := CreateChannel(g, next, channelOk, storeOk, recordOk);
      (g', next')
    case Destroy(_, k) => (DestroyChannel(g, k), next)
  }

  function Step(s: System, op: Op): System
    requires Legal(s, op)
  {
    var (g, next) := StepGpu(s.gpus[op.gpu], s.next, op);
    System(s.gpus[op.gpu := g], next)
  }

  // Every call of the run is legal where it is made.
  ghost predicate LegalRun(s: System, ops: seq<Op>)
    decreases |ops|
  {
    ops == [] || (Legal(s, ops[0]) && LegalRun(Step(s, ops[0]), ops[1..]))
  }

  function Run(s: System, ops: seq<Op>): System
    requires LegalRun(s, ops)
    decreases |ops|
  {
    if ops == [] then s else Run(Step(s, ops[0]), ops[1..])
  }
}
