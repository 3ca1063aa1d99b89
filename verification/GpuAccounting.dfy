/**
 VRAM accounting over whole runs, push buffers owned by channels, and the draining shutdown.

 A free credits VRAM from the description its caller passes, not from the record it removes, and the
 runtime passes a description that credits nothing.  The ledger below separates the three amounts
 (granted, credited, released) and the theorems say what follows for each kind of caller.
 */
module GpuAccounting {
  import opened Words
  import opened GpuSpec
  import opened GpuTables

  // ---------------------------------------------------------------- VIDEO bytes in a table

  function LiveVideo(records: seq<Record>): nat {
    if records == [] then 0 else LiveVideo(records[..|records| - 1]) + VideoBytes(records[|records| - 1])
  }

  function VideoBytes(r: Record): nat { Credit(r.kind, |r.bytes|) }

  lemma LiveVideoAppend(records: seq<Record>, r: Record)
    ensures LiveVideo(records + [r]) == LiveVideo(records) + VideoBytes(r)
  {
    assert (records + [r])[..|records|] == records;
  }

  lemma {:induction false} LiveVideoRemove(records: seq<Record>, i: nat)
    requires i < |records|
    ensures LiveVideo(records) == LiveVideo(RemoveIndex(records, i)) + VideoBytes(records[i])
  {
    var n := |records| - 1;
    if i == n {
      assert RemoveIndex(records, i) == records[..n];
    } else {
      LiveVideoRemove(records[..n], i);
      var later := RemoveIndex(records, i);
      assert later[..|later| - 1] == RemoveIndex(records[..n], i);
      assert later[|later| - 1] == records[n];
    }
  }

  // Writing changes neither sizes nor kinds.
  lemma {:induction false} LiveVideoSame(a: seq<Record>, b: seq<Record>)
    requires |a| == |b| && forall i :: 0 <= i < |a| ==> SameRange(a[i], b[i]) && b[i].kind == a[i].kind
    ensures LiveVideo(a) == LiveVideo(b)
  {
    if a != [] {
      LiveVideoSame(a[..|a| - 1], b[..|b| - 1]);
      assert SameRange(a[|a| - 1], b[|a| - 1]);
    }
  }

  lemma LiveVideoWrite(records: seq<Record>, x: nat, data: seq<Byte>)
    ensures LiveVideo(Write(records, x, data)) == LiveVideo(records)
  {
    WriteKeepsRanges(records, x, data);
    LiveVideoSame(records, Write(records, x, data));
  }

  // ---------------------------------------------------------------- the ledger of one GPU

  datatype Ledger = Ledger(granted: nat, credited: nat, released: nat) {
    function Plus(other: Ledger): Ledger {
      Ledger(granted + other.granted, credited + other.credited, released + other.released)
    }
  }

  // VIDEO bytes that the record at addr, if there is one, takes with it.
  function ReleasedAt(records: seq<Record>, addr: nat): nat {
    var i := IndexAt(records, addr);
    if i < |records| then VideoBytes(records[i]) else 0
  }

  // What one call grants, credits and releases.
  function Entry(g: Gpu, next: nat, op: Op): Ledger
    requires op.Destroy? ==> op.k < |g.channels|
  {
    match op
    case Alloc(_, size, kind, storeOk, recordOk) =>
      Ledger(if AllocMemory(g, next, size, kind, storeOk, recordOk).2 == Success then Credit(kind, AlignUp(size, DEVICE_PAGE)) else 0, 0, 0)
    case Free(_, addr, kind, size) => Ledger(0, Credit(kind, size), ReleasedAt(g.records, addr))
    case Destroy(_, k) => Ledger(0, 0, ReleasedAt(g.records, g.channels[k].base))
    case _ => Ledger(0, 0, 0)
  }

  lemma ReleaseEntry(records: seq<Record>, addr: nat)
    ensures LiveVideo(RemoveIndex(records, IndexAt(records, addr))) + ReleasedAt(records, addr) == LiveVideo(records)
  {
    var i := IndexAt(records, addr);
    if i < |records| {
      LiveVideoRemove(records, i);
    }
  }

  lemma AllocEntry(g: Gpu, next: nat, size: nat, kind: Kind, storeOk: bool, recordOk: bool)
    ensures var (g', _, status) := AllocMemory(g, next, size, kind, storeOk, recordOk);
            var n := if status == Success then Credit(kind, AlignUp(size, DEVICE_PAGE)) else 0;
            && g'.vramFree + n == g.vramFree && LiveVideo(g'.records) == LiveVideo(g.records) + n
            && g'.vramSize == g.vramSize
  {
    hide AlignUp, LiveVideo;
    var n := AlignUp(size, DEVICE_PAGE);
    LiveVideoAppend(g.records, Record(next, kind, Zeros(n)));
  }

  lemma StepLedger(g: Gpu, next: nat, op: Op)
    requires op.Destroy? ==> op.k < |g.channels|
    ensures var g' := StepGpu(g, next, op).0;
            var e := Entry(g, next, op);
            && g'.vramFree + e.granted == g.vramFree + e.credited
            && LiveVideo(g'.records) + e.released == LiveVideo(g.records) + e.granted
            && g'.vramSize == g.vramSize
  {
    hide LiveVideo, AlignUp, AllocMemory, Write, ReleasedAt, RemoveIndex, IndexAt, Covered;
    match op
    case Alloc(_, size, kind, storeOk, recordOk) => AllocEntry(g, next, size, kind, storeOk, recordOk);
    case Create(_, _, storeOk, recordOk) => AllocEntry(g, next, PUSH_BUFFER, SystemMem, storeOk, recordOk);
    case Free(_, addr, _, _) => ReleaseEntry(g.records, addr);
    case Destroy(_, k) => ReleaseEntry(g.records, g.channels[k].base);
    case ToDevice(_, dst, data) => LiveVideoWrite(g.records, dst, data);
    case OnDevice(_, dst, src, n) =>
      if Covered(g.records, src, n) {
        LiveVideoWrite(g.records, dst, Read(g.records, src, n));
      }
    case ToHost(_, _, _) =>
  }

  // What the calls of a run on GPU h grant, credit and release together.
  function Totals(s: System, ops: seq<Op>, h: nat): Ledger
    requires LegalRun(s, ops)
    decreases |ops|
  {
    if ops == [] then Ledger(0, 0, 0)
    else (if ops[0].gpu == h then Entry(s.gpus[h], s.next, ops[0]) else Ledger(0, 0, 0)).Plus(Totals(Step(s, ops[0]), ops[1..], h))
  }

  /** Conservation over every run: free VRAM moves by what is credited less what is granted, live VIDEO
      bytes by what is granted less what is released. */
  lemma {:induction false} RunLedger(s: System, ops: seq<Op>, h: nat)
    requires LegalRun(s, ops) && h < |s.gpus|
    ensures var end := Run(s, ops);
            var t := Totals(s, ops, h);
            && |end.gpus| == |s.gpus| && end.gpus[h].vramSize == s.gpus[h].vramSize
            && end.gpus[h].vramFree + t.granted == s.gpus[h].vramFree + t.credited
            && LiveVideo(end.gpus[h].records) + t.released == LiveVideo(s.gpus[h].records) + t.granted
    decreases |ops|
  {
    if ops != [] {
      StepLedger(s.gpus[ops[0].gpu], s.next, ops[0]);
      hide LiveVideo, Entry, StepGpu;
      RunLedger(Step(s, ops[0]), ops[1..], h);
    }
  }

  // ---------------------------------------------------------------- the runtime's frees

  // cudaFree and cudaStreamDestroy describe the memory they free with kind 0, which is not VIDEO.
  ghost predicate FromRuntime(ops: seq<Op>) {
    forall op <- ops :: op.Free? ==> op.freedKind != VideoMem
  }

  lemma {:induction false} RuntimeCreditsNothing(s: System, ops: seq<Op>, h: nat)
    requires LegalRun(s, ops) && FromRuntime(ops)
    ensures Totals(s, ops, h).credited == 0
    decreases |ops|
  {
    if ops != [] {
      hide Step, AllocMemory, AlignUp;
      assert ops[0] in ops;
      RuntimeCreditsNothing(Step(s, ops[0]), ops[1..], h);
    }
  }

  /** VRAM is never overcommitted by the runtime, and never given back either: free VRAM is the whole
      size less all VIDEO bytes ever granted, a request is refused exactly when it would pass the size
      together with everything granted before, and the count is exact exactly when no VIDEO byte has
      been freed. */
  lemma RuntimeAccounting(s: System, ops: seq<Op>, h: nat)
    requires LegalRun(s, ops) && FromRuntime(ops) && h < |s.gpus|
    requires s.gpus[h].records == [] && s.gpus[h].vramFree == s.gpus[h].vramSize
    ensures var t := Totals(s, ops, h);
            var end := Run(s, ops).gpus;
            && |end| == |s.gpus| && end[h].vramSize == s.gpus[h].vramSize
            && end[h].vramFree == end[h].vramSize - t.granted
            && LiveVideo(end[h].records) <= t.granted <= end[h].vramSize
            && (end[h].vramFree + LiveVideo(end[h].records) == end[h].vramSize <==> t.released == 0)
            && forall size | 0 < size && |end[h].records| < MAX_RECORDS ::
                 AllocCheck(end[h], size, VideoMem) == NoMemory <==> end[h].vramSize < t.granted + AlignUp(size, DEVICE_PAGE)
  {
    RunLedger(s, ops, h);
    RuntimeCreditsNothing(s, ops, h);
    hide AlignUp, Totals, Run;
  }

  /** A VIDEO allocation that is freed at once leaves the table as it was.  Free VRAM comes back exactly
      when the caller describes the rounded size and the right kind, which cudaFree never does. */
  lemma GrantThenFree(g: Gpu, next: nat, size: nat, freedKind: Kind, freedSize: nat)
    requires Ordered(g.records, next) && AllocCheck(g, size, VideoMem) == Success && size + DEVICE_PAGE - 1 < WORD
    ensures var (g1, next1, status) := AllocMemory(g, next, size, VideoMem, true, true);
            var g2 := FreeMemory(g1, next, freedKind, freedSize);
            && status == Success && g2.records == g.records
            && g2.vramFree + AlignUp(size, DEVICE_PAGE) == g.vramFree + Credit(freedKind, freedSize)
            && (g2 == g <==> freedKind == VideoMem && freedSize == AlignUp(size, DEVICE_PAGE))
            && (freedKind != VideoMem ==> g2.vramFree < g.vramFree)
  {
    AlignUpCorrect(size, DEVICE_PAGE);
    hide AlignUp;
    var r := Record(next, VideoMem, Zeros(AlignUp(size, DEVICE_PAGE)));
    LastRecord(g.records, next, r);
  }

  // A record that starts where the others end is found behind them.
  lemma LastRecord(records: seq<Record>, next: nat, r: Record)
    requires Ordered(records, next) && r.addr == next
    ensures IndexAt(records + [r], next) == |records| && RemoveIndex(records + [r], |records|) == records
  {
    var all := records + [r];
    assert forall j :: 0 <= j < |records| ==> all[j].addr == records[j].addr < next;
    assert all[|records|].addr == next;
    assert all[..|records|] + all[|records| + 1..] == records;
  }

  /** One byte of VIDEO memory, allocated and freed by the runtime, costs a page. */
  lemma OneByteCostsAPage()
    ensures var g := Gpu([], [], 65536, 65536, 0);
            var (g1, _, status) := AllocMemory(g, DEVICE_PAGE, 1, VideoMem, true, true);
            var g2 := FreeMemory(g1, DEVICE_PAGE, SystemMem, 0);
            status == Success && g2.records == [] && g2.vramFree == g.vramFree - 4096
  {
    GrantThenFree(Gpu([], [], 65536, 65536, 0), DEVICE_PAGE, 1, SystemMem, 0);
  }

  // ---------------------------------------------------------------- push buffers

  predicate PushBuffer(r: Record, base: nat) {
    r.addr == base && |r.bytes| == PUSH_BUFFER && r.kind == SystemMem
  }

  ghost predicate HasPushBuffer(records: seq<Record>, base: nat) {
    exists i :: 0 <= i < |records| && PushBuffer(records[i], base)
  }

  // Every channel has its push buffer in the table, and no two channels share one.
  ghost predicate Owned(g: Gpu) {
    && (forall k :: 0 <= k < |g.channels| ==> HasPushBuffer(g.records, g.channels[k].base))
    && (forall j, k :: 0 <= j < k < |g.channels| ==> g.channels[j].base != g.channels[k].base)
  }

  lemma PushBufferPages()
    ensures AlignUp(PUSH_BUFFER, DEVICE_PAGE) == PUSH_BUFFER
  {
  }

  // Taking out a record that starts elsewhere leaves a push buffer where it is.
  lemma RemoveOther(records: seq<Record>, i: nat, base: nat)
    requires i < |records| ==> records[i].addr != base
    requires HasPushBuffer(records, base)
    ensures HasPushBuffer(RemoveIndex(records, i), base)
  {
    var k :| 0 <= k < |records| && PushBuffer(records[k], base);
    var later := RemoveIndex(records, i);
    assert PushBuffer(later[if k < i then k else k - 1], base);
  }

  // Taking out the record at base leaves none there.
  lemma RemoveThis(records: seq<Record>, next: nat, base: nat)
    requires Ordered(records, next)
    ensures !HasPushBuffer(RemoveIndex(records, IndexAt(records, base)), base)
  {
  }

  /** A free keeps every channel's push buffer exactly when it does not name one. */
  lemma FreeKeepsOwned(g: Gpu, next: nat, addr: nat, kind: Kind, size: nat)
    requires Ordered(g.records, next) && Owned(g)
    ensures Owned(FreeMemory(g, addr, kind, size)) <==> forall k :: 0 <= k < |g.channels| ==> g.channels[k].base != addr
  {
    var i := IndexAt(g.records, addr);
    RemoveThis(g.records, next, addr);
    hide HasPushBuffer, RemoveIndex, IndexAt, Ordered;
    var g' := FreeMemory(g, addr, kind, size);
    forall k | 0 <= k < |g.channels| && g.channels[k].base != addr ensures HasPushBuffer(g'.records, g.channels[k].base) {
      RemoveOther(g.records, i, g.channels[k].base);
    }
  }

  lemma AppendKeepsBuffers(records: seq<Record>, r: Record, base: nat)
    requires HasPushBuffer(records, base)
    ensures HasPushBuffer(records + [r], base)
  {
    var k :| 0 <= k < |records| && PushBuffer(records[k], base);
    assert PushBuffer((records + [r])[k], base);
  }

  lemma WriteKeepsBuffers(records: seq<Record>, x: nat, data: seq<Byte>, base: nat)
    requires HasPushBuffer(records, base)
    ensures HasPushBuffer(Write(records, x, data), base)
  {
    var k :| 0 <= k < |records| && PushBuffer(records[k], base);
    WriteKeepsRanges(records, x, data);
    hide Write;
    assert SameRange(records[k], Write(records, x, data)[k]);
    assert PushBuffer(Write(records, x, data)[k], base);
  }

  lemma BuffersBelow(records: seq<Record>, next: nat, base: nat)
    requires Ordered(records, next) && HasPushBuffer(records, base)
    ensures base < next
  {
  }

  lemma WriteKeepsOwned(g: Gpu, x: nat, data: seq<Byte>)
    requires Owned(g)
    ensures Owned(g.(records := Write(g.records, x, data)))
  {
    hide HasPushBuffer, Write;
    forall k | 0 <= k < |g.channels| ensures HasPushBuffer(Write(g.records, x, data), g.channels[k].base) {
      WriteKeepsBuffers(g.records, x, data, g.channels[k].base);
    }
  }

  lemma AllocKeepsOwned(g: Gpu, next: nat, size: nat, kind: Kind, storeOk: bool, recordOk: bool)
    requires Owned(g)
    ensures Owned(AllocMemory(g, next, size, kind, storeOk, recordOk).0)
  {
    hide HasPushBuffer, AlignUp;
    var g' := AllocMemory(g, next, size, kind, storeOk, recordOk).0;
    forall k | 0 <= k < |g.channels| ensures HasPushBuffer(g'.records, g.channels[k].base) {
      AppendKeepsBuffers(g.records, Record(next, kind, Zeros(AlignUp(size, DEVICE_PAGE))), g.channels[k].base);
    }
  }

  lemma CreateKeepsOwned(g: Gpu, next: nat, channelOk: bool, storeOk: bool, recordOk: bool)
    requires Ordered(g.records, next) && Owned(g)
    ensures Owned(CreateChannel(g, next, channelOk, storeOk, recordOk).0)
  {
    AllocKeepsOwned(g, next, PUSH_BUFFER, SystemMem, storeOk, recordOk);
    PushBufferPages();
    hide AlignUp;
    var (g', _, status) := CreateChannel(g, next, channelOk, storeOk, recordOk);
    if |g'.channels| == |g.channels| + 1 {
      assert PushBuffer(g'.records[|g.records|], next);
      assert HasPushBuffer(g'.records, next);
      hide HasPushBuffer, Ordered, AllocMemory;
      forall k | 0 <= k < |g.channels| ensures g.channels[k].base != next {
        BuffersBelow(g.records, next, g.channels[k].base);
      }
    }
  }

  lemma DestroyKeepsOwned(g: Gpu, k: nat)
    requires Owned(g) && k < |g.channels|
    ensures Owned(DestroyChannel(g, k))
  {
    var g' := DestroyChannel(g, k);
    hide HasPushBuffer;
    forall j | 0 <= j < |g'.channels| ensures HasPushBuffer(g'.records, g'.channels[j].base) {
      var m := if j < k then j else j + 1;
      assert g'.channels[j] == g.channels[m];
      RemoveOther(g.records, IndexAt(g.records, g.channels[k].base), g.channels[m].base);
    }
  }

  // The caller frees no channel's push buffer behind its back.
  ghost predicate SparesBuffers(g: Gpu, op: Op) {
    op.Free? ==> forall k :: 0 <= k < |g.channels| ==> g.channels[k].base != op.addr
  }

  lemma StepKeepsOwned(g: Gpu, next: nat, op: Op)
    requires Ordered(g.records, next) && Owned(g) && SparesBuffers(g, op)
    requires op.Destroy? ==> op.k < |g.channels|
    ensures Owned(StepGpu(g, next, op).0)
  {
    hide Owned, AllocMemory, Write, CreateChannel, FreeMemory, DestroyChannel, Covered;
    match op
    case Alloc(_, size, kind, storeOk, recordOk) => AllocKeepsOwned(g, next, size, kind, storeOk, recordOk);
    case Create(_, channelOk, storeOk, recordOk) => CreateKeepsOwned(g, next, channelOk, storeOk, recordOk);
    case Free(_, addr, kind, size) => FreeKeepsOwned(g, next, addr, kind, size);
    case Destroy(_, k) => DestroyKeepsOwned(g, k);
    case ToDevice(_, dst, data) =>
      WriteKeepsOwned(g, dst, data);
      OwnedDepends(g.(records := Write(g.records, dst, data)), StepGpu(g, next, op).0);
      OwnedDepends(g, g);
    case OnDevice(_, dst, src, n) =>
      if Covered(g.records, src, n) {
        WriteKeepsOwned(g, dst, Read(g.records, src, n));
      }
    case ToHost(_, _, _) => OwnedDepends(g, StepGpu(g, next, op).0);
  }

  lemma OwnedDepends(g: Gpu, g2: Gpu)
    requires Owned(g)
    ensures g2.records == g.records && g2.channels == g.channels ==> Owned(g2)
  {
  }

  ghost predicate SparesThroughout(s: System, ops: seq<Op>)
    requires LegalRun(s, ops)
    decreases |ops|
  {
    ops == [] || (SparesBuffers(s.gpus[ops[0].gpu], ops[0]) && SparesThroughout(Step(s, ops[0]), ops[1..]))
  }

  /** As long as callers free no push buffer, over every run each live channel of each GPU has exactly
      one record of 1 MiB of SYSTEM memory at its base, shared with no other channel. */
  lemma {:induction false} RunKeepsOwned(s: System, ops: seq<Op>, h: nat)
    requires Inv(s) && LegalRun(s, ops) && SparesThroughout(s, ops) && h < |s.gpus| && Owned(s.gpus[h])
    ensures |Run(s, ops).gpus| == |s.gpus| && Owned(Run(s, ops).gpus[h])
    decreases |ops|
  {
    if ops != [] {
      if ops[0].gpu == h {
        StepKeepsOwned(s.gpus[h], s.next, ops[0]);
      }
      StepKeepsInv(s, ops[0]);
      hide Owned, Inv, StepGpu, SparesBuffers;
      RunKeepsOwned(Step(s, ops[0]), ops[1..], h);
    }
  }

  lemma OneRecordPerBase(records: seq<Record>, next: nat, i: nat, j: nat)
    requires Ordered(records, next) && i < |records| && j < |records| && records[i].addr == records[j].addr
    ensures i == j
  {
    IndexAtUnique(records, next, i);
    IndexAtUnique(records, next, j);
  }

  /** A channel that is created and then destroyed leaves both tables, and free VRAM, as they were. */
  lemma CreateThenDestroy(g: Gpu, next: nat)
    requires Ordered(g.records, next) && |g.channels| < MAX_CHANNELS && |g.records| < MAX_RECORDS
    ensures var (g', next', status) := CreateChannel(g, next, true, true, true);
            && status == Success && |g'.channels| == |g.channels| + 1 && next' == next + PUSH_BUFFER
            && DestroyChannel(g', |g.channels|) == g
  {
    PushBufferPages();
    hide AlignUp;
    var (g', _, _) := CreateChannel(g, next, true, true, true);
    AppendKeepsOrder(g.records, next, g'.records[|g.records|]);
    IndexAtUnique(g'.records, next + PUSH_BUFFER, |g.records|);
  }

  // ---------------------------------------------------------------- frees that pass the full record

  // The description passed is the record in the table, and it is not a channel's push buffer.
  ghost predicate PassesRecord(g: Gpu, op: Op) {
    op.Free? ==>
      var i := IndexAt(g.records, op.addr);
      && i < |g.records| && g.records[i].kind == op.freedKind && |g.records[i].bytes| == op.freedSize
      && SparesBuffers(g, op)
  }

  ghost predicate PassesRecords(s: System, ops: seq<Op>)
    requires LegalRun(s, ops)
    decreases |ops|
  {
    ops == [] || (PassesRecord(s.gpus[ops[0].gpu], ops[0]) && PassesRecords(Step(s, ops[0]), ops[1..]))
  }

  // A push buffer is SYSTEM memory, so a destroyed channel releases no VIDEO bytes.
  lemma BufferReleasesNothing(records: seq<Record>, next: nat, base: nat)
    requires Ordered(records, next) && HasPushBuffer(records, base)
    ensures ReleasedAt(records, base) == 0
  {
    var i :| 0 <= i < |records| && PushBuffer(records[i], base);
    IndexAtUnique(records, next, i);
  }

  lemma EntryBalances(g: Gpu, next: nat, op: Op)
    requires Ordered(g.records, next) && Owned(g) && PassesRecord(g, op)
    requires op.Destroy? ==> op.k < |g.channels|
    ensures Entry(g, next, op).credited == Entry(g, next, op).released
  {
    if op.Destroy? {
      BufferReleasesNothing(g.records, next, g.channels[op.k].base);
    }
    hide AllocMemory, AlignUp, Owned, Ordered, IndexAt;
  }

  lemma StepBalances(s: System, op: Op, h: nat)
    requires Inv(s) && Legal(s, op) && PassesRecord(s.gpus[op.gpu], op) && h < |s.gpus| && Owned(s.gpus[h])
    ensures Inv(Step(s, op)) && |Step(s, op).gpus| == |s.gpus| && Owned(Step(s, op).gpus[h])
    ensures op.gpu == h ==> Entry(s.gpus[h], s.next, op).credited == Entry(s.gpus[h], s.next, op).released
  {
    StepKeepsInv(s, op);
    if op.gpu == h {
      EntryBalances(s.gpus[h], s.next, op);
      StepKeepsOwned(s.gpus[h], s.next, op);
    }
    hide Owned, Inv, StepGpu, PassesRecord, Entry;
  }

  lemma {:induction false} TotalsBalance(s: System, ops: seq<Op>, h: nat)
    requires Inv(s) && LegalRun(s, ops) && PassesRecords(s, ops) && h < |s.gpus| && Owned(s.gpus[h])
    ensures Totals(s, ops, h).credited == Totals(s, ops, h).released
    decreases |ops|
  {
    if ops != [] {
      StepBalances(s, ops[0], h);
      hide Owned, Inv, Step, PassesRecord, Entry;
      TotalsBalance(Step(s, ops[0]), ops[1..], h);
    }
  }

  /** When every free passes the full record, free VRAM and live VIDEO bytes always add up to the same. */
  lemma FullRecordAccounting(s: System, ops: seq<Op>, h: nat)
    requires Inv(s) && LegalRun(s, ops) && PassesRecords(s, ops) && h < |s.gpus| && Owned(s.gpus[h])
    ensures var end := Run(s, ops).gpus;
            |end| == |s.gpus|
            && end[h].vramFree + LiveVideo(end[h].records) == s.gpus[h].vramFree + LiveVideo(s.gpus[h].records)
  {
    RunLedger(s, ops, h);
    TotalsBalance(s, ops, h);
    hide Totals, Run, LiveVideo;
  }

  // ---------------------------------------------------------------- shutdown

  // The table after a drain, and what was released on the way, in order.
  datatype Drained = Drained(gpu: Gpu, records: seq<Record>, channels: seq<Channel>)

  // The record a free of addr removes.
  function Removed(records: seq<Record>, addr: nat): seq<Record> {
    var i := IndexAt(records, addr);
    if i < |records| then [records[i]] else []
  }

  function DrainChannels(g: Gpu): Drained
    decreases |g.channels|
  {
    if g.channels == [] then Drained(g, [], []) else
    var k := |g.channels| - 1;
    var rest := DrainChannels(DestroyChannel(g, k));
    rest.(records := Removed(g.records, g.channels[k].base) + rest.records, channels := [g.channels[k]] + rest.channels)
  }

  // Frees the last record by passing it whole, until the table is empty.
  function DrainRecords(g: Gpu): Drained
    decreases |g.records|
  {
    if g.records == [] then Drained(g, [], []) else
    var r := g.records[|g.records| - 1];
    var rest := DrainRecords(FreeMemory(g, r.addr, r.kind, |r.bytes|));
    rest.(records := Removed(g.records, r.addr) + rest.records)
  }

  function Shutdown(g: Gpu): Drained {
    var first := DrainChannels(g);
    var second := DrainRecords(first.gpu);
    Drained(second.gpu, first.records + second.records, first.channels)
  }

  function Reverse<T>(s: seq<T>): seq<T> {
    if s == [] then [] else [s[|s| - 1]] + Reverse(s[..|s| - 1])
  }

  lemma RemovedMultiset(records: seq<Record>, addr: nat)
    ensures multiset(Removed(records, addr)) + multiset(RemoveIndex(records, IndexAt(records, addr))) == multiset(records)
  {
    var i := IndexAt(records, addr);
    if i < |records| {
      SplitMultiset(records, i);
    }
    hide IndexAt;
  }

  lemma SplitMultiset(records: seq<Record>, i: nat)
    requires i < |records|
    ensures multiset([records[i]]) + multiset(RemoveIndex(records, i)) == multiset(records)
  {
    assert records == records[..i] + [records[i]] + records[i + 1..];
  }

  lemma ChannelDrained(g: Gpu, next: nat)
    requires Ordered(g.records, next) && Owned(g) && g.channels != []
    ensures var k := |g.channels| - 1;
            var after := DestroyChannel(g, k);
            && Ordered(after.records, next) && Owned(after) && after.channels == g.channels[..k]
            && after.vramFree == g.vramFree && LiveVideo(after.records) == LiveVideo(g.records)
            && |Removed(g.records, g.channels[k].base)| == 1
            && multiset(Removed(g.records, g.channels[k].base)) + multiset(after.records) == multiset(g.records)
  {
    hide *;
    var k := |g.channels| - 1;
    var base := g.channels[k].base;
    LastDestroyed(g);
    DestroyKeepsOwned(g, k);
    RemoveKeepsOrder(g.records, next, IndexAt(g.records, base));
    RemovedMultiset(g.records, base);
    ReleaseEntry(g.records, base);
    OwnsLast(g);
    BufferReleasesNothing(g.records, next, base);
    BufferRemoved(g.records, next, base);
  }

  lemma LastDestroyed(g: Gpu)
    requires g.channels != []
    ensures var k := |g.channels| - 1;
            var after := DestroyChannel(g, k);
            && after.records == RemoveIndex(g.records, IndexAt(g.records, g.channels[k].base))
            && after.channels == g.channels[..k] && after.vramFree == g.vramFree
  {
  }

  lemma OwnsLast(g: Gpu)
    requires Owned(g) && g.channels != []
    ensures HasPushBuffer(g.records, g.channels[|g.channels| - 1].base)
  {
  }

  lemma BufferRemoved(records: seq<Record>, next: nat, base: nat)
    requires Ordered(records, next) && HasPushBuffer(records, base)
    ensures |Removed(records, base)| == 1
  {
    var i :| 0 <= i < |records| && PushBuffer(records[i], base);
    IndexAtUnique(records, next, i);
  }

  lemma ReleasedTogether<T>(a: seq<T>, b: seq<T>, left: seq<T>, after: seq<T>, all: seq<T>)
    requires multiset(a) + multiset(after) == multiset(all)
    requires multiset(b) + multiset(left) == multiset(after)
    ensures multiset(a + b) + multiset(left) == multiset(all)
  {
  }

  lemma {:induction false} ChannelsDrained(g: Gpu, next: nat)
    requires Ordered(g.records, next) && Owned(g)
    ensures var d := DrainChannels(g);
            && d.gpu.channels == [] && d.channels == Reverse(g.channels)
            && multiset(d.records) + multiset(d.gpu.records) == multiset(g.records)
            && |d.records| == |g.channels|
            && d.gpu.vramFree == g.vramFree && LiveVideo(d.gpu.records) == LiveVideo(g.records)
            && Ordered(d.gpu.records, next)
    decreases |g.channels|
  {
    if g.channels != [] {
      var k := |g.channels| - 1;
      ChannelDrained(g, next);
      var after := DestroyChannel(g, k);
      hide Owned, Ordered, LiveVideo, Removed, DestroyChannel;
      ChannelsDrained(after, next);
      var rest := DrainChannels(after);
      ReleasedTogether(Removed(g.records, g.channels[k].base), rest.records, rest.gpu.records, after.records, g.records);
    }
  }

  lemma {:induction false} RecordsDrained(g: Gpu, next: nat)
    requires Ordered(g.records, next)
    ensures var d := DrainRecords(g);
            && d.gpu.records == [] && d.gpu.channels == g.channels && d.records == Reverse(g.records)
            && d.gpu.vramFree == g.vramFree + LiveVideo(g.records)
    decreases |g.records|
  {
    if g.records != [] {
      var n := |g.records| - 1;
      IndexAtUnique(g.records, next, n);
      RemoveKeepsOrder(g.records, next, n);
      assert RemoveIndex(g.records, n) == g.records[..n];
      hide Ordered, IndexAt, RemoveIndex;
      RecordsDrained(FreeMemory(g, g.records[n].addr, g.records[n].kind, |g.records[n].bytes|), next);
    }
  }

  lemma {:induction false} ReverseMultiset<T>(s: seq<T>)
    ensures multiset(Reverse(s)) == multiset(s)
  {
    if s != [] {
      ReverseMultiset(s[..|s| - 1]);
      assert s == s[..|s| - 1] + [s[|s| - 1]];
    }
  }

  /** Shutdown ends with both tables empty, releases every record and every channel exactly once, and
      credits exactly the VIDEO bytes that were live. */
  lemma ShutdownReleasesAll(g: Gpu, next: nat)
    requires Ordered(g.records, next) && Owned(g)
    ensures var d := Shutdown(g);
            && d.gpu.records == [] && d.gpu.channels == []
            && multiset(d.records) == multiset(g.records) && multiset(d.channels) == multiset(g.channels)
            && d.gpu.vramFree == g.vramFree + LiveVideo(g.records)
  {
    ChannelsDrained(g, next);
    var first := DrainChannels(g);
    RecordsDrained(first.gpu, next);
    ReverseMultiset(g.channels);
    ReverseMultiset(first.gpu.records);
    hide DrainChannels, DrainRecords, Reverse, LiveVideo, Ordered, Owned;
  }
}
