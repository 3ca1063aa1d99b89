/**
 The host side of cudabridge_python.c as values: usage counters, flat buffers of elements, and the
 matrix product with the element operations kept opaque.
 */
module PyArraySpec {
  import opened Words
  import opened GpuSpec
  import opened GpuTables
  import opened GpuFlat

  datatype DType = Float32 | Float64 | Int32 | Int64 | UInt8 | UInt32 | Int8 | Int16 | Float16 | Bool {
    function Size(): nat {
      match this
      case Float64 => 8
      case Int64 => 8
      case Float32 => 4
      case Int32 => 4
      case UInt32 => 4
      case Int16 => 2
      case Float16 => 2
      case UInt8 => 1
      case Int8 => 1
      case Bool => 1
    }
  }

  /** The widths of the element types, wide to narrow. */
  lemma Widths(d: DType)
    ensures d.Size() == 8 <==> d == Float64 || d == Int64
    ensures d.Size() == 4 <==> d == Float32 || d == Int32 || d == UInt32
    ensures d.Size() == 2 <==> d == Int16 || d == Float16
    ensures d.Size() == 1 <==> d == UInt8 || d == Int8 || d == Bool
  {
  }

  // The byte count of an array, as the 64-bit product the code computes.
  function TotalSize(elemCount: nat, dtype: DType): nat { Wrap(elemCount * dtype.Size()) }

  /** The byte count is right exactly when the product fits a word, and exactly then the loops over
      all elements stay inside a buffer of that many bytes. */
  lemma LoopInBounds(elemCount: nat, dtype: DType)
    requires 0 < elemCount
    ensures TotalSize(elemCount, dtype) == elemCount * dtype.Size() <==> elemCount * dtype.Size() < WORD
    ensures (forall i :: 0 <= i < elemCount ==> ElementEnd(i, dtype) <= TotalSize(elemCount, dtype))
       <==> elemCount * dtype.Size() < WORD
  {
    var n := elemCount * dtype.Size();
    assert TotalSize(elemCount, dtype) <= n && TotalSize(elemCount, dtype) < WORD;
    assert ElementEnd(elemCount - 1, dtype) == n;
    hide TotalSize;
    forall i | 0 <= i < elemCount ensures ElementEnd(i, dtype) <= n {
      InBuffer(i, elemCount, dtype.Size());
    }
    if n < WORD {
      TotalSizeSmall(elemCount, dtype);
    }
  }

  // The end of the i-th element in a flat buffer.
  function ElementEnd(i: nat, dtype: DType): nat { (i + 1) * dtype.Size() }

  lemma TotalSizeSmall(elemCount: nat, dtype: DType)
    requires elemCount * dtype.Size() < WORD
    ensures TotalSize(elemCount, dtype) == elemCount * dtype.Size()
  {
    WrapSmall(elemCount * dtype.Size());
  }

  /** 2^61 + 1 doubles come out as 8 bytes: such an upload can succeed, and a loop over its elements
      leaves the buffer at the second one. */
  lemma WrappedUpload()
    ensures var elemCount := 0x2000_0000_0000_0001;
            TotalSize(elemCount, Float64) == 8 < ElementEnd(1, Float64) && 1 < elemCount
  {
  }

  // ---------------------------------------------------------------- usage counters

  datatype Usage = Usage(allocs: nat, frees: nat, current: nat, peak: nat)

  function Grown(u: Usage, n: nat): Usage {
    var current := u.current + n;
    Usage(u.allocs + 1, u.frees, current, if current > u.peak then current else u.peak)
  }

  // A free subtracts, or clamps to zero when more is freed than is in use.
  function Shrunk(u: Usage, n: nat): Usage {
    u.(frees := u.frees + 1, current := if u.current >= n then u.current - n else 0)
  }

  // A handle of n bytes appears, or the i-th live handle is freed.
  datatype UsageOp = Create(n: nat) | Release(i: nat)

  function Sum(sizes: seq<nat>): nat {
    if sizes == [] then 0 else sizes[0] + Sum(sizes[1..])
  }

  function LiveAfter(live: seq<nat>, op: UsageOp): seq<nat> {
    match op
    case Create(n) => [n] + live
    case Release(i) => RemoveIndex(live, i)
  }

  function Count(u: Usage, live: seq<nat>, op: UsageOp): Usage {
    match op
    case Create(n) => Grown(u, n)
    case Release(i) => if i < |live| then Shrunk(u, live[i]) else u
  }

  // Only live handles are freed, so none is freed twice.
  predicate LegalUse(live: seq<nat>, ops: seq<UsageOp>)
    decreases |ops|
  {
    ops == [] || ((ops[0].Release? ==> ops[0].i < |live|) && LegalUse(LiveAfter(live, ops[0]), ops[1..]))
  }

  function UsageRun(u: Usage, live: seq<nat>, ops: seq<UsageOp>): (Usage, seq<nat>)
    decreases |ops|
  {
    if ops == [] then (u, live) else UsageRun(Count(u, live, ops[0]), LiveAfter(live, ops[0]), ops[1..])
  }

  // The largest sum of live sizes at any point of the run.
  function HighWater(live: seq<nat>, ops: seq<UsageOp>): nat
    decreases |ops|
  {
    if ops == [] then Sum(live) else
    var later := HighWater(LiveAfter(live, ops[0]), ops[1..]);
    if later > Sum(live) then later else Sum(live)
  }

  predicate Exact(u: Usage, live: seq<nat>) {
    u.current == Sum(live) && u.allocs == u.frees + |live| && u.current <= u.peak
  }

  lemma {:induction false} SumRemove(s: seq<nat>, i: nat)
    requires i < |s|
    ensures Sum(s) == Sum(RemoveIndex(s, i)) + s[i]
  {
    if i > 0 {
      var left := RemoveIndex(s, i);
      SumRemove(s[1..], i - 1);
      assert left[0] == s[0] && left[1..] == RemoveIndex(s[1..], i - 1);
      hide RemoveIndex;
    } else {
      assert RemoveIndex(s, 0) == s[1..];
    }
  }

  lemma StepExact(u: Usage, live: seq<nat>, op: UsageOp)
    requires Exact(u, live) && (op.Release? ==> op.i < |live|)
    ensures Exact(Count(u, live, op), LiveAfter(live, op))
    ensures Count(u, live, op).peak == if op.Create? && Sum(LiveAfter(live, op)) > u.peak then Sum(LiveAfter(live, op)) else u.peak
    ensures op.Release? ==> live[op.i] <= u.current
  {
    match op
    case Create(n) => assert ([n] + live)[1..] == live;
    case Release(i) => SumRemove(live, i);
  }

  /** In every run in which each handle is freed at most once: current usage is the sum of the live
      sizes, peak usage its maximum over the run, and allocations less frees the number of live
      handles.  (`StepExact`: the clamp is never needed.) */
  lemma {:induction false} RunExact(u: Usage, live: seq<nat>, ops: seq<UsageOp>)
    requires Exact(u, live) && LegalUse(live, ops)
    ensures var (v, left) := UsageRun(u, live, ops);
            Exact(v, left) && v.peak == if HighWater(live, ops) > u.peak then HighWater(live, ops) else u.peak
    decreases |ops|
  {
    if ops != [] {
      StepExact(u, live, ops[0]);
      RunExact(Count(u, live, ops[0]), LiveAfter(live, ops[0]), ops[1..]);
      hide Sum, Count, LiveAfter;
    }
  }

  function Creations(ops: seq<UsageOp>): nat {
    if ops == [] then 0 else (if ops[0].Create? then 1 else 0) + Creations(ops[1..])
  }

  /** Over every run the two call counters grow by exactly the arrays created and the arrays freed. */
  lemma {:induction false} RunCounts(u: Usage, live: seq<nat>, ops: seq<UsageOp>)
    requires LegalUse(live, ops)
    ensures var v := UsageRun(u, live, ops).0;
            Creations(ops) <= |ops| && v.allocs == u.allocs + Creations(ops) && v.frees == u.frees + |ops| - Creations(ops)
    decreases |ops|
  {
    if ops != [] {
      RunCounts(Count(u, live, ops[0]), LiveAfter(live, ops[0]), ops[1..]);
      hide LiveAfter;
    }
  }

  // ---------------------------------------------------------------- arrays on the device

  // The range that starts at ptr is live and holds exactly these bytes.
  ghost predicate Holds(records: seq<Record>, ptr: nat, data: seq<Byte>) {
    data != [] && Covered(records, ptr, |data|) && Read(records, ptr, |data|) == data
  }

  // Whatever could be read before reads the same afterwards.
  ghost predicate Preserved(before: seq<Record>, after: seq<Record>) {
    forall x, n :: Kept(before, after, x, n)
  }

  ghost predicate Kept(before: seq<Record>, after: seq<Record>, x: nat, n: nat) {
    0 < n && Covered(before, x, n) ==> Covered(after, x, n) && Read(after, x, n) == Read(before, x, n)
  }

  lemma HoldsKept(before: seq<Record>, after: seq<Record>, ptr: nat, data: seq<Byte>)
    requires Preserved(before, after) && Holds(before, ptr, data)
    ensures Holds(after, ptr, data)
  {
    hide Covered, Read;
    assert Kept(before, after, ptr, |data|);
  }

  lemma PreservedTwice(a: seq<Record>, b: seq<Record>, c: seq<Record>)
    requires Preserved(a, b) && Preserved(b, c)
    ensures Preserved(a, c)
  {
    hide Covered, Read;
    forall x, n ensures Kept(a, c, x, n) {
      assert Kept(a, b, x, n) && Kept(b, c, x, n);
    }
  }

  // A covered range lies below the next address.
  lemma CoveredBelow(records: seq<Record>, next: nat, x: nat, n: nat)
    requires Ordered(records, next) && Covered(records, x, n)
    ensures x + n <= next
  {
  }

  /** An upload into a fresh allocation is there afterwards, and shows nowhere else. */
  lemma UploadFresh(g: Gpu, next: nat, data: seq<Byte>)
    requires Ordered(g.records, next) && |data| + DEVICE_PAGE - 1 < WORD
    requires AllocCheck(g, |data|, VideoMem) == Success
    ensures var (g1, next1, status) := AllocMemory(g, next, |data|, VideoMem, true, true);
            var g2 := CopyToDevice(g1, next, data);
            && status == Success && Ordered(g2.records, next1) && next <= next1
            && Holds(g2.records, next, data) && Preserved(g.records, g2.records)
  {
    var (g1, next1, status) := AllocMemory(g, next, |data|, VideoMem, true, true);
    var g2 := CopyToDevice(g1, next, data);
    FreshReadsZero(g, next, |data|, VideoMem, next, |data|);
    AllocKeepsOrder(g, next, |data|, VideoMem, true, true);
    WriteKeepsOrder(g1.records, next1, next, data);
    ReadAfterWrite(g1.records, next1, next, data, next, |data|);
    hide AllocMemory, Write, Read, Covered, AllocCheck;
    assert Read(g2.records, next, |data|) == data;
    forall x, n ensures Kept(g.records, g2.records, x, n) {
      UploadKeeps(g, next, data, x, n);
    }
  }

  lemma UploadKeeps(g: Gpu, next: nat, data: seq<Byte>, x: nat, n: nat)
    requires Ordered(g.records, next) && |data| + DEVICE_PAGE - 1 < WORD
    requires AllocCheck(g, |data|, VideoMem) == Success
    ensures var g1 := AllocMemory(g, next, |data|, VideoMem, true, true).0;
            Kept(g.records, CopyToDevice(g1, next, data).records, x, n)
  {
    if 0 < n && Covered(g.records, x, n) {
      var (g1, next1, status) := AllocMemory(g, next, |data|, VideoMem, true, true);
      FreshReadsZero(g, next, |data|, VideoMem, next, |data|);
      FreshReadsZero(g, next, |data|, VideoMem, x, n);
      AllocKeepsOrder(g, next, |data|, VideoMem, true, true);
      CoveredBelow(g.records, next, x, n);
      ReadAfterWrite(g1.records, next1, next, data, x, n);
      hide AllocMemory, Write, Read, Covered, AllocCheck;
      assert Read(CopyToDevice(g1, next, data).records, x, n) == Read(g1.records, x, n);
    }
  }

  // One VIDEO record for n bytes was added.
  predicate Spent(g: Gpu, g2: Gpu, n: nat) {
    |g2.records| == |g.records| + 1 && g2.vramFree + AlignUp(n, DEVICE_PAGE) == g.vramFree
  }

  // There is room for three arrays of these sizes (see RoomExactly).
  predicate Room(g: Gpu, a: nat, b: nat, c: nat) {
    && 0 < a && 0 < b && 0 < c && |g.records| + 3 <= MAX_RECORDS
    && AlignUp(a, DEVICE_PAGE) + AlignUp(b, DEVICE_PAGE) + AlignUp(c, DEVICE_PAGE) <= g.vramFree
  }

  // There is room for two arrays of n bytes.
  predicate RoomForTwo(g: Gpu, n: nat) {
    0 < n && |g.records| + 2 <= MAX_RECORDS && AlignUp(n, DEVICE_PAGE) + AlignUp(n, DEVICE_PAGE) <= g.vramFree
  }

  lemma TwoFit(g: Gpu, g1: Gpu, n: nat)
    ensures RoomForTwo(g, n) ==>
      AllocCheck(g, n, VideoMem) == Success && (Spent(g, g1, n) ==> AllocCheck(g1, n, VideoMem) == Success)
  {
    hide AlignUp;
  }

  // Three allocations in a row succeed where there is room for them.
  lemma RoomSuffices(g: Gpu, g1: Gpu, g2: Gpu, a: nat, b: nat, c: nat)
    ensures Room(g, a, b, c) ==>
      && AllocCheck(g, a, VideoMem) == Success
      && (Spent(g, g1, a) ==> AllocCheck(g1, b, VideoMem) == Success)
      && (Spent(g, g1, a) && Spent(g1, g2, b) ==> AllocCheck(g2, c, VideoMem) == Success)
  {
    hide AlignUp;
  }

  // The state after a VIDEO allocation for which the host has memory.
  function Placed(g: Gpu, next: nat, n: nat): (Gpu, nat) {
    var (g', next', _) := AllocMemory(g, next, n, VideoMem, true, true);
    (g', next')
  }

  /** There is room for two, or for three, arrays exactly when as many allocations in a row succeed. */
  lemma RoomExactly(g: Gpu, next: nat, a: nat, b: nat, c: nat)
    ensures var (g1, next1) := Placed(g, next, a);
            var (g2, next2) := Placed(g1, next1, b);
            Room(g, a, b, c) <==>
              && AllocMemory(g, next, a, VideoMem, true, true).2 == Success
              && AllocMemory(g1, next1, b, VideoMem, true, true).2 == Success
              && AllocMemory(g2, next2, c, VideoMem, true, true).2 == Success
    ensures var (g1, next1) := Placed(g, next, a);
            RoomForTwo(g, a) <==>
              && AllocMemory(g, next, a, VideoMem, true, true).2 == Success
              && AllocMemory(g1, next1, a, VideoMem, true, true).2 == Success
  {
    hide AlignUp;
  }

  /** An allocation that succeeds, followed by the copy: the data is there, everything else reads as
      before.  One that fails changes nothing that can be read. */
  lemma PlaceOutcome(g: Gpu, next: nat, data: seq<Byte>, storeOk: bool, recordOk: bool)
    requires Ordered(g.records, next) && data != [] && |data| + DEVICE_PAGE - 1 < WORD
    ensures var status := AllocMemory(g, next, |data|, VideoMem, storeOk, recordOk).2;
            var (g1, next1) := StepGpu(g, next, Alloc(0, |data|, VideoMem, storeOk, recordOk));
            var g2 := StepGpu(g1, next1, ToDevice(0, next, data)).0;
            && (status == Success <==> storeOk && recordOk && AllocCheck(g, |data|, VideoMem) == Success)
            && next <= next1 && Ordered(g1.records, next1) && StepGpu(g1, next1, ToDevice(0, next, data)).1 == next1
            && (status == Success ==>
                 Ordered(g2.records, next1) && Holds(g2.records, next, data) && Preserved(g.records, g2.records) && Spent(g, g2, |data|))
            && (status != Success ==> g1.records == g.records)
  {
    StepKeepsOrder(g, next, Alloc(0, |data|, VideoMem, storeOk, recordOk));
    if storeOk && recordOk && AllocCheck(g, |data|, VideoMem) == Success {
      UploadFresh(g, next, data);
      var g1 := AllocMemory(g, next, |data|, VideoMem, true, true).0;
      WriteKeepsRanges(g1.records, next, data);
    }
    hide Holds, Preserved, Ordered, Write, AlignUp;
  }

  // These are the bytes at ptr, if that range is live.
  ghost predicate Delivers(records: seq<Record>, ptr: nat, bytes: seq<Byte>) {
    Covered(records, ptr, |bytes|) ==> bytes == Read(records, ptr, |bytes|)
  }

  lemma HoldsDelivers(records: seq<Record>, ptr: nat, data: seq<Byte>)
    requires Holds(records, ptr, data)
    ensures forall bytes :: |bytes| == |data| && Delivers(records, ptr, bytes) ==> bytes == data
  {
  }

  /** A download delivers what a covered range holds, and changes no record. */
  lemma FetchOutcome(g: Gpu, next: nat, buffer: seq<Byte>, ptr: nat)
    ensures var (g1, next1) := StepGpu(g, next, ToHost(0, ptr, |buffer|));
            && g1.records == g.records && g1 == g.(transferred := g1.transferred) && next1 == next
            && Delivers(g.records, ptr, CopyToHost(g, buffer, ptr))
  {
  }

  lemma SamePreserved(records: seq<Record>)
    ensures Preserved(records, records)
  {
    hide Covered, Read;
  }

  lemma RemoveKeepsReads(records: seq<Record>, next: nat, k: nat, x: nat, n: nat)
    requires Ordered(records, next) && k < |records| && Covered(records, x, n) && IndexOf(records, x) != k
    ensures Covered(RemoveIndex(records, k), x, n) && Read(RemoveIndex(records, k), x, n) == Read(records, x, n)
  {
    hide Ordered, RemoveIndex;
    var i := IndexOf(records, x);
    var later := RemoveIndex(records, k);
    var j := if i < k then i else i - 1;
    RemoveKeepsOrder(records, next, k);
    RemovedAt(records, k, j);
    IndexOfUnique(later, next, j, x);
  }

  lemma RemovedLength<T>(s: seq<T>, k: nat)
    requires k < |s|
    ensures |RemoveIndex(s, k)| == |s| - 1
  {
  }

  lemma RemovedAt<T>(s: seq<T>, k: nat, j: nat)
    requires k < |s| && j < |s| - 1
    ensures j < |RemoveIndex(s, k)| && RemoveIndex(s, k)[j] == s[if j < k then j else j + 1]
  {
  }

  /** Freeing one array leaves every range outside its record as it was. */
  lemma FreeKeepsOthers(g: Gpu, next: nat, ptr: nat, x: nat, n: nat)
    requires Ordered(g.records, next) && Covered(g.records, x, n)
    requires g.records[IndexOf(g.records, x)].addr != ptr
    ensures Kept(g.records, FreeMemory(g, ptr, SystemMem, 0).records, x, n)
  {
    var k := IndexAt(g.records, ptr);
    if k < |g.records| {
      RemoveKeepsReads(g.records, next, k, x, n);
    }
    hide Covered, Read, IndexOf;
  }

  // Every range outside the record that starts at ptr reads as before.
  ghost predicate OthersKept(before: seq<Record>, after: seq<Record>, ptr: nat) {
    forall x, n :: Covered(before, x, n) && before[IndexOf(before, x)].addr != ptr ==> Kept(before, after, x, n)
  }

  lemma FreeOutcome(g: Gpu, next: nat, ptr: nat)
    requires Ordered(g.records, next)
    ensures var (g1, next1) := StepGpu(g, next, Free(0, ptr, SystemMem, 0));
            && next1 == next && Ordered(g1.records, next) && OthersKept(g.records, g1.records, ptr)
            && IndexAt(g1.records, ptr) == |g1.records|
  {
    StepKeepsOrder(g, next, Free(0, ptr, SystemMem, 0));
    forall x, n | Covered(g.records, x, n) && g.records[IndexOf(g.records, x)].addr != ptr
      ensures Kept(g.records, FreeMemory(g, ptr, SystemMem, 0).records, x, n)
    {
      FreeKeepsOthers(g, next, ptr, x, n);
    }
    FreedIsGone(g.records, next, ptr);
    hide Kept, Covered, Ordered;
  }

  // Addresses are unique, so no record starts at an address that was freed.
  lemma FreedIsGone(records: seq<Record>, next: nat, ptr: nat)
    requires Ordered(records, next)
    ensures var k := IndexAt(records, ptr);
            var left := if k < |records| then RemoveIndex(records, k) else records;
            IndexAt(left, ptr) == |left|
  {
    var k := IndexAt(records, ptr);
    if k < |records| {
      var left := RemoveIndex(records, k);
      forall j | 0 <= j < |left| ensures left[j].addr != ptr {
        RemovedAt(records, k, j);
      }
    }
  }

  // ---------------------------------------------------------------- which record belongs to which array

  // A record starts at ptr, and it holds n bytes.
  ghost predicate Owns(records: seq<Record>, ptr: nat, n: nat) {
    0 < n && Covered(records, ptr, n) && records[IndexOf(records, ptr)].addr == ptr
  }

  datatype Span = Span(ptr: nat, size: nat)

  // Every array has a record of its own.
  ghost predicate AllOwned(records: seq<Record>, spans: seq<Span>) {
    && (forall i :: 0 <= i < |spans| ==> spans[i].ptr != 0 && Owns(records, spans[i].ptr, spans[i].size))
    && (forall i, j :: 0 <= i < j < |spans| ==> spans[i].ptr != spans[j].ptr)
  }

  // Records that were there are there, except one that starts at ptr.
  ghost predicate OwnersKept(before: seq<Record>, after: seq<Record>, ptr: nat) {
    forall x, n :: x != ptr && Owns(before, x, n) ==> Owns(after, x, n)
  }

  lemma SameOwners(records: seq<Record>)
    ensures forall ptr :: OwnersKept(records, records, ptr)
  {
    hide Owns;
  }

  // In an ordered table the record at an address is the only one that contains it.
  lemma OwnsAt(records: seq<Record>, next: nat, x: nat, n: nat)
    requires Ordered(records, next)
    ensures Owns(records, x, n) <==>
            0 < n && IndexAt(records, x) < |records| && n <= |records[IndexAt(records, x)].bytes|
    ensures Owns(records, x, n) ==> IndexOf(records, x) == IndexAt(records, x)
  {
    var i := IndexAt(records, x);
    if i < |records| {
      IndexOfUnique(records, next, i, x);
    }
    var j := IndexOf(records, x);
    if j < |records| && records[j].addr == x {
      IndexAtUnique(records, next, j);
    }
    hide Ordered, IndexAt, IndexOf;
  }

  // Uploading keeps all owners; the new array owns the new record, and nobody owned that address before.
  lemma PlaceOwned(g: Gpu, next: nat, data: seq<Byte>, storeOk: bool, recordOk: bool)
    requires Ordered(g.records, next) && 0 < next && data != [] && |data| + DEVICE_PAGE - 1 < WORD
    ensures var status := AllocMemory(g, next, |data|, VideoMem, storeOk, recordOk).2;
            var (g1, next1) := StepGpu(g, next, Alloc(0, |data|, VideoMem, storeOk, recordOk));
            var g2 := StepGpu(g1, next1, ToDevice(0, next, data)).0;
            && (status != Success ==> g1.records == g.records)
            && (status == Success ==>
                 && OwnersKept(g.records, g2.records, 0) && Owns(g2.records, next, |data|)
                 && forall n :: !Owns(g.records, next, n))
  {
    hide Ordered, Write, AlignUp, Owns;
    NobodyOwns(g.records, next);
    var status := AllocMemory(g, next, |data|, VideoMem, storeOk, recordOk).2;
    if status == Success {
      var n := AlignUp(|data|, DEVICE_PAGE);
      AlignUpCorrect(|data|, DEVICE_PAGE);
      var r := Record(next, VideoMem, Zeros(n));
      AppendKeepsOrder(g.records, next, r);
      var next1 := r.End();
      var records := g.records + [r];
      WriteKeepsOrder(records, next1, next, data);
      OwnersAppended(g.records, next, r, |data|);
      WriteKeepsOwners(records, next1, next, data);
    }
  }

  lemma NobodyOwns(records: seq<Record>, next: nat)
    requires Ordered(records, next)
    ensures forall n :: !Owns(records, next, n)
  {
  }

  lemma OwnersAppended(records: seq<Record>, next: nat, r: Record, size: nat)
    requires Ordered(records, next) && r.addr == next && 0 < size <= |r.bytes| && Ordered(records + [r], r.End())
    ensures OwnersKept(records, records + [r], 0) && Owns(records + [r], next, size)
  {
    var all := records + [r];
    IndexAtUnique(all, r.End(), |records|);
    OwnsAt(all, r.End(), next, size);
    hide Owns;
    forall x, n | Owns(records, x, n) ensures Owns(all, x, n) {
      OwnsAt(records, next, x, n);
      OwnsAt(all, r.End(), x, n);
      assert all[IndexAt(records, x)] == records[IndexAt(records, x)];
      IndexAtUnique(all, r.End(), IndexAt(records, x));
    }
  }

  // A write leaves every record where it is, and as long as it is.
  lemma WriteKeepsOwners(records: seq<Record>, next: nat, dst: nat, data: seq<Byte>)
    requires Ordered(records, next) && Ordered(Write(records, dst, data), next)
    ensures forall x, n :: Owns(records, x, n) ==> Owns(Write(records, dst, data), x, n)
  {
    var after := Write(records, dst, data);
    WriteKeepsRanges(records, dst, data);
    hide Write, Ordered, Owns;
    forall x, n | Owns(records, x, n) ensures Owns(after, x, n) {
      OwnsAt(records, next, x, n);
      OwnsAt(after, next, x, n);
      var i := IndexAt(records, x);
      assert SameRange(records[i], after[i]);
      IndexAtUnique(after, next, i);
    }
  }

  // Freeing the record at ptr keeps the owners of all others, and what they hold.
  lemma FreeOwned(g: Gpu, next: nat, ptr: nat)
    requires Ordered(g.records, next)
    ensures var g1 := StepGpu(g, next, Free(0, ptr, SystemMem, 0)).0;
            OwnersKept(g.records, g1.records, ptr)
  {
    OwnersRemoved(g.records, next, ptr);
    hide OwnersKept;
  }

  lemma OwnersRemoved(records: seq<Record>, next: nat, ptr: nat)
    requires Ordered(records, next)
    ensures OwnersKept(records, RemoveIndex(records, IndexAt(records, ptr)), ptr)
  {
    var k := IndexAt(records, ptr);
    var after := RemoveIndex(records, k);
    RemoveKeepsOrder(records, next, k);
    hide Owns, Ordered, RemoveIndex;
    forall x, n | x != ptr && Owns(records, x, n) ensures Owns(after, x, n) {
      OwnsAt(records, next, x, n);
      OwnsAt(after, next, x, n);
      NotRemoved(records, next, k, IndexAt(records, x));
    }
  }

  lemma NotRemoved(records: seq<Record>, next: nat, k: nat, i: nat)
    requires Ordered(records, next) && Ordered(RemoveIndex(records, k), next) && i < |records| && i != k
    ensures var after := RemoveIndex(records, k);
            IndexAt(after, records[i].addr) < |after| && after[IndexAt(after, records[i].addr)] == records[i]
  {
    assert k >= |records| ==> RemoveIndex(records, k) == records;
    hide Ordered, IndexAt, RemoveIndex;
    if k < |records| {
      var j := if i < k then i else i - 1;
      RemovedAt(records, k, j);
      IndexAtUnique(RemoveIndex(records, k), next, j);
    } else {
      IndexAtUnique(records, next, i);
    }
  }

  lemma OthersHold(before: seq<Record>, after: seq<Record>, ptr: nat, x: nat, n: nat)
    requires OthersKept(before, after, ptr) && Owns(before, x, n) && x != ptr
    ensures forall data :: |data| == n && Holds(before, x, data) ==> Holds(after, x, data)
  {
    assert Kept(before, after, x, n);
    hide Covered, Read, IndexOf;
  }

  lemma AddedOwned(before: seq<Record>, after: seq<Record>, spans: seq<Span>, span: Span)
    requires AllOwned(before, spans) && OwnersKept(before, after, 0)
    requires span.ptr != 0 && Owns(after, span.ptr, span.size) && forall n :: !Owns(before, span.ptr, n)
    ensures AllOwned(after, [span] + spans)
  {
    hide Owns;
    var all := [span] + spans;
    assert forall i :: 1 <= i < |all| ==> all[i] == spans[i - 1];
  }

  lemma StillOwned(before: seq<Record>, after: seq<Record>, spans: seq<Span>)
    requires AllOwned(before, spans) && OwnersKept(before, after, 0)
    ensures AllOwned(after, spans)
  {
    hide Owns;
  }

  lemma RemovedOwned(before: seq<Record>, after: seq<Record>, spans: seq<Span>, i: nat)
    requires AllOwned(before, spans) && i < |spans| && OwnersKept(before, after, spans[i].ptr)
    ensures AllOwned(after, RemoveIndex(spans, i))
  {
    hide Owns;
    var left := RemoveIndex(spans, i);
    assert forall j :: 0 <= j < |left| ==> left[j] == spans[if j < i then j else j + 1];
  }

  // ---------------------------------------------------------------- flat buffers of elements

  // Float addition and multiplication and the all-zero pattern, on elements as byte words.
  datatype Arith = Arith(zero: seq<Byte>, add: (seq<Byte>, seq<Byte>) -> seq<Byte>, mul: (seq<Byte>, seq<Byte>) -> seq<Byte>)

  // Results are elements of the same width.
  ghost predicate Width(f: (seq<Byte>, seq<Byte>) -> seq<Byte>, es: nat) {
    forall x, y :: |x| == es && |y| == es ==> |f(x, y)| == es
  }

  ghost predicate Arithmetic(ar: Arith, es: nat) {
    |ar.zero| == es && Width(ar.add, es) && Width(ar.mul, es)
  }

  // The i-th element lies in a buffer of this length.
  predicate Inside(i: nat, es: nat, length: nat) { (i + 1) * es <= length }

  // The i-th element of a flat buffer.
  function Entry(c: seq<Byte>, i: nat, es: nat): (e: seq<Byte>)
    ensures Inside(i, es, |c|) ==> |e| == es
  {
    Offsets(i, es);
    if Inside(i, es, |c|) then c[i * es..(i + 1) * es] else []
  }

  lemma Offsets(i: nat, es: nat)
    ensures 0 <= i * es && (i + 1) * es == i * es + es
  {
  }

  // A flat index below the count leaves room for its element.
  lemma InBuffer(i: nat, count: nat, es: nat)
    requires i < count
    ensures (i + 1) * es <= count * es
  {
  }

  lemma InsideBelow(i: nat, count: nat, es: nat, length: nat)
    requires i < count && count * es <= length
    ensures Inside(i, es, length)
  {
    InBuffer(i, count, es);
  }

  // A prefix that holds the element holds the same one.
  lemma EntryOfPrefix(c: seq<Byte>, n: nat, i: nat, es: nat)
    requires n <= |c| && Inside(i, es, n)
    ensures Inside(i, es, |c|) && Entry(c[..n], i, es) == Entry(c, i, es)
  {
    Offsets(i, es);
  }

  // The row-major index of a place in a matrix with n columns.
  function Flat(row: nat, col: nat, n: nat): nat { row * n + col }

  // Row-major indices stay inside the matrix, and different places have different indices.
  lemma FlatIndex(row: nat, col: nat, m: nat, n: nat)
    requires row < m && col < n
    ensures Flat(row, col, n) < m * n
  {
    MulLess(row, m, n);
  }

  lemma FlatInjective(row: nat, col: nat, row2: nat, col2: nat, n: nat)
    requires col < n && col2 < n && Flat(row, col, n) == Flat(row2, col2, n)
    ensures row == row2 && col == col2
  {
    MulLess(row, row2, n);
    MulLess(row2, row, n);
  }

  lemma MulLess(i: nat, j: nat, n: nat)
    ensures i < j ==> i * n + n <= j * n
  {
    if i < j {
      assert (i + 1) * n <= j * n;
    }
  }

  // ---------------------------------------------------------------- what the loops touch

  // The bytes of the output buffer: its element count is a 64-bit product.
  function OutputSize(m: nat, n: nat, es: nat): nat { Wrap(m * n) * es }

  // The loads for one term of the sum are inside the operands.
  predicate TermOk(k: nat, n: nat, row: nat, col: nat, inner: nat, la: nat, lb: nat, es: nat) {
    Inside(Flat(row, inner, k), es, la) && Inside(Flat(inner, col, n), es, lb)
  }

  // All loads for one place, and its store, are inside the buffers.
  ghost predicate PlaceOk(k: nat, n: nat, row: nat, col: nat, la: nat, lb: nat, lo: nat, es: nat) {
    Inside(Flat(row, col, n), es, lo) && forall inner :: 0 <= inner < k ==> TermOk(k, n, row, col, inner, la, lb, es)
  }

  // What a caller can see before the call: nothing is computed, or the element count of the product does
  // not wrap and both operands have the elements that their shapes ask for.
  predicate InBounds(m: nat, k: nat, n: nat, la: nat, lb: nat, es: nat) {
    m == 0 || n == 0 || (m * n < WORD && (k == 0 || (m * k * es <= la && k * n * es <= lb)))
  }

  /** The loops of the matrix product stay inside their buffers exactly then. */
  lemma ProductInBounds(m: nat, k: nat, n: nat, la: nat, lb: nat, es: nat)
    requires 0 < es
    ensures (forall row, col :: 0 <= row < m && 0 <= col < n ==> PlaceOk(k, n, row, col, la, lb, OutputSize(m, n, es), es))
       <==> InBounds(m, k, n, la, lb, es)
  {
    if InBounds(m, k, n, la, lb, es) {
      forall row, col | 0 <= row < m && 0 <= col < n ensures PlaceOk(k, n, row, col, la, lb, OutputSize(m, n, es), es) {
        PlaceInBounds(m, k, n, row, col, la, lb, es);
      }
    } else if PlaceOk(k, n, m - 1, n - 1, la, lb, OutputSize(m, n, es), es) {
      LastPlace(m, k, n, la, lb, es);
    }
  }

  lemma PlaceInBounds(m: nat, k: nat, n: nat, row: nat, col: nat, la: nat, lb: nat, es: nat)
    requires InBounds(m, k, n, la, lb, es) && row < m && col < n
    ensures PlaceOk(k, n, row, col, la, lb, OutputSize(m, n, es), es)
  {
    WrapSmall(m * n);
    hide Wrap;
    FlatIndex(row, col, m, n);
    hide Inside, Flat;
    InsideBelow(Flat(row, col, n), m * n, es, OutputSize(m, n, es));
    forall inner | 0 <= inner < k ensures TermOk(k, n, row, col, inner, la, lb, es) {
      FlatIndex(row, inner, m, k);
      FlatIndex(inner, col, k, n);
      InsideBelow(Flat(row, inner, k), m * k, es, la);
      InsideBelow(Flat(inner, col, n), k * n, es, lb);
    }
  }

  // The last place is the one that decides.
  lemma LastPlace(m: nat, k: nat, n: nat, la: nat, lb: nat, es: nat)
    requires 0 < m && 0 < n && 0 < es && PlaceOk(k, n, m - 1, n - 1, la, lb, OutputSize(m, n, es), es)
    ensures InBounds(m, k, n, la, lb, es)
  {
    LastFlat(m, n);
    LessByFactor(m * n, Wrap(m * n), es);
    if k > 0 {
      assert TermOk(k, n, m - 1, n - 1, k - 1, la, lb, es);
      LastFlat(m, k);
      LastFlat(k, n);
    }
  }

  lemma LastFlat(m: nat, n: nat)
    requires 0 < m && 0 < n
    ensures Flat(m - 1, n - 1, n) + 1 == m * n
  {
  }

  lemma LessByFactor(x: nat, y: nat, es: nat)
    requires 0 < es
    ensures x * es <= y * es ==> x <= y
  {
    if y < x {
      assert (y + 1) * es <= x * es;
    }
  }

  lemma FactorGrows(x: nat, es: nat)
    requires 0 < es
    ensures x <= x * es
  {
  }

  // An index after one that was inside its buffer fits a word.
  lemma NextFits(i: nat, es: nat, length: nat)
    requires 0 < es && length < WORD && Inside(i, es, length)
    ensures i + 1 < WORD
  {
    FactorGrows(i + 1, es);
  }

  // The access before this one in row-major order was inside the buffer.
  predicate RowMajorSoFar(row: nat, col: nat, n: nat, length: nat, es: nat)
    requires col < n
  {
    && (col > 0 ==> Inside(Flat(row, col - 1, n), es, length))
    && (row > 0 && col == 0 ==> Inside(Flat(row - 1, n - 1, n), es, length))
  }

  // The access one row up was, and for the second row the one to the left.
  predicate ColumnSoFar(row: nat, col: nat, n: nat, length: nat, es: nat) {
    && (row > 0 ==> Inside(Flat(row - 1, col, n), es, length))
    && (row == 1 && col > 0 ==> Inside(Flat(1, col - 1, n), es, length))
  }

  /** The loops take indices as 64-bit words, and none wraps before an access has left its buffer.  The store
      and the loads of the first operand come in row-major order; the loads of the second go down a column,
      after those of the columns to the left. */
  lemma IndicesFit(row: nat, col: nat, n: nat, length: nat, es: nat)
    requires 4 <= es && length < WORD && col < n < WORD
    requires RowMajorSoFar(row, col, n, length, es) || ColumnSoFar(row, col, n, length, es)
    ensures Flat(row, col, n) < WORD
  {
    if row == 0 {
      assert Flat(0, col, n) == col;
    } else {
      FlatDown(row, col, n);
      if col > 0 && Inside(Flat(row, col - 1, n), es, length) {
        NextFits(Flat(row, col - 1, n), es, length);
      }
      if col == 0 && Inside(Flat(row - 1, n - 1, n), es, length) {
        NextFits(Flat(row - 1, n - 1, n), es, length);
      }
      if row > 1 && Inside(Flat(row - 1, col, n), es, length) {
        QuarterFits(Flat(row - 1, col, n), es, length);
      }
    }
  }

  lemma FlatDown(row: nat, col: nat, n: nat)
    requires 0 < row && col < n
    ensures Flat(row, col, n) == Flat(row - 1, col, n) + n
    ensures row > 1 ==> n <= Flat(row - 1, col, n)
    ensures col > 0 ==> Flat(row, col, n) == Flat(row, col - 1, n) + 1
    ensures col == 0 ==> Flat(row, col, n) == Flat(row - 1, n - 1, n) + 1
    ensures Flat(1, col, n) == n + col
  {
    assert row * n == (row - 1) * n + n;
    if row > 1 {
      MulLess(0, row - 1, n);
    }
  }

  lemma QuarterFits(i: nat, es: nat, length: nat)
    requires 4 <= es && length < WORD && Inside(i, es, length)
    ensures 4 * i < WORD
  {
    assert (i + 1) * 4 <= (i + 1) * es;
  }

  /** Two one-element arrays with shapes [2^63 + 1, 0] and [0, 2]: the element count of the product comes
      out as 2, its buffer as 8 bytes, and the stores leave it from the second row on. */
  lemma WrappedProduct()
    ensures var m, n, es := 0x8000_0000_0000_0001, 2, 4;
            && OutputSize(m, n, es) == 8 && !InBounds(m, 0, n, es, es, es)
            && PlaceOk(0, n, 0, 0, es, es, 8, es) && PlaceOk(0, n, 0, 1, es, es, 8, es)
            && forall row, col :: 1 <= row < m && 0 <= col < n ==> !PlaceOk(0, n, row, col, es, es, 8, es)
  {
    var m: nat, n: nat, es: nat := 0x8000_0000_0000_0001, 2, 4;
    assert Wrap(m * n) == 2;
    forall row: nat, col: nat | 1 <= row < m && 0 <= col < n ensures !Inside(Flat(row, col, n), es, 8) {
      assert Flat(row, col, n) >= 2;
    }
  }

  // ---------------------------------------------------------------- what the loops compute

  // The first t terms of row times column, summed from the left, starting with zero.
  ghost function Dot(ar: Arith, a: seq<Byte>, b: seq<Byte>, k: nat, n: nat, row: nat, col: nat, t: nat, es: nat): seq<Byte> {
    if t == 0 then ar.zero else
    ar.add(Dot(ar, a, b, k, n, row, col, t - 1, es),
           ar.mul(Entry(a, Flat(row, t - 1, k), es), Entry(b, Flat(t - 1, col, n), es)))
  }

  // c holds the product of a and b, element by element, and every element involved exists.
  ghost predicate IsProduct(ar: Arith, a: seq<Byte>, b: seq<Byte>, c: seq<Byte>, m: nat, k: nat, n: nat, es: nat) {
    && InBounds(m, k, n, |a|, |b|, es) && |c| == m * n * es
    && forall row, col :: 0 <= row < m && 0 <= col < n ==> EntryIs(ar, a, b, c, k, n, row, col, es)
  }

  ghost predicate EntryIs(ar: Arith, a: seq<Byte>, b: seq<Byte>, c: seq<Byte>, k: nat, n: nat, row: nat, col: nat, es: nat) {
    Entry(c, Flat(row, col, n), es) == Dot(ar, a, b, k, n, row, col, k, es)
  }

  // c holds f of the elements of a and b, place by place.
  ghost predicate IsZip(f: (seq<Byte>, seq<Byte>) -> seq<Byte>, a: seq<Byte>, b: seq<Byte>, c: seq<Byte>, count: nat, es: nat) {
    && count * es <= |a| && count * es <= |b| && |c| == count * es
    && forall i :: 0 <= i < count ==> ZipAt(f, a, b, c, i, es)
  }

  ghost predicate ZipAt(f: (seq<Byte>, seq<Byte>) -> seq<Byte>, a: seq<Byte>, b: seq<Byte>, c: seq<Byte>, i: nat, es: nat) {
    Entry(c, i, es) == f(Entry(a, i, es), Entry(b, i, es))
  }

  // e holds, at each place, the entry of the product of a and b plus the element of d there.
  ghost predicate IsProductPlus(ar: Arith, a: seq<Byte>, b: seq<Byte>, d: seq<Byte>, e: seq<Byte>, m: nat, k: nat, n: nat, es: nat) {
    && InBounds(m, k, n, |a|, |b|, es) && m * n * es <= |d| && |e| == m * n * es
    && forall row, col :: 0 <= row < m && 0 <= col < n ==> PlusAt(ar, a, b, d, e, k, n, row, col, es)
  }

  ghost predicate PlusAt(ar: Arith, a: seq<Byte>, b: seq<Byte>, d: seq<Byte>, e: seq<Byte>, k: nat, n: nat,
                         row: nat, col: nat, es: nat) {
    Entry(e, Flat(row, col, n), es)
      == ar.add(Dot(ar, a, b, k, n, row, col, k, es), Entry(d, Flat(row, col, n), es))
  }

  lemma ProductThenZip(ar: Arith, a: seq<Byte>, b: seq<Byte>, c: seq<Byte>, d: seq<Byte>, e: seq<Byte>, m: nat, k: nat, n: nat, es: nat)
    requires IsProduct(ar, a, b, c, m, k, n, es) && IsZip(ar.add, c, d, e, m * n, es)
    ensures IsProductPlus(ar, a, b, d, e, m, k, n, es)
  {
    hide Dot, Entry, InBounds;
    forall row, col | 0 <= row < m && 0 <= col < n ensures PlusAt(ar, a, b, d, e, k, n, row, col, es) {
      FlatIndex(row, col, m, n);
      assert EntryIs(ar, a, b, c, k, n, row, col, es);
      assert ZipAt(ar.add, c, d, e, Flat(row, col, n), es);
    }
  }

  // ---------------------------------------------------------------- laws of the product

  // The i-th element is the es bytes from i * es on.
  lemma EntryBytes(c: seq<Byte>, i: nat, es: nat)
    ensures 0 <= i * es && (i * es + es <= |c| ==> Entry(c, i, es) == c[i * es..i * es + es])
  {
    Offsets(i, es);
  }

  /** Each element of a product is the sum, from the left and starting with zero, of row times column. */
  lemma ProductElement(ar: Arith, a: seq<Byte>, b: seq<Byte>, c: seq<Byte>, m: nat, k: nat, n: nat, row: nat, col: nat, es: nat)
    requires IsProduct(ar, a, b, c, m, k, n, es) && row < m && col < n
    ensures 0 <= row * n && Flat(row, col, n) == row * n + col
    ensures Entry(c, Flat(row, col, n), es)
         == SumOf(ar, k, (t: nat) => ar.mul(Entry(a, Flat(row, t, k), es), Entry(b, Flat(t, col, n), es)))
  {
    hide Entry, InBounds, Dot;
    assert EntryIs(ar, a, b, c, k, n, row, col, es);
    DotIsSum(ar, a, b, k, n, row, col, k, es);
  }

  // term(0), term(1), ... term(k - 1) added up from the left.
  ghost function SumOf(ar: Arith, k: nat, term: nat -> seq<Byte>): seq<Byte> {
    if k == 0 then ar.zero else ar.add(SumOf(ar, k - 1, term), term(k - 1))
  }

  lemma {:induction false} DotIsSum(ar: Arith, a: seq<Byte>, b: seq<Byte>, k: nat, n: nat, row: nat, col: nat, t: nat, es: nat)
    ensures Dot(ar, a, b, k, n, row, col, t, es)
         == SumOf(ar, t, (i: nat) => ar.mul(Entry(a, Flat(row, i, k), es), Entry(b, Flat(i, col, n), es)))
  {
    hide Entry, Flat;
    if t > 0 {
      DotIsSum(ar, a, b, k, n, row, col, t - 1, es);
    }
  }

  // one and zero are what their names say, for elements of this width.
  ghost predicate Neutral(ar: Arith, one: seq<Byte>, es: nat) {
    && |one| == es && |ar.zero| == es
    && forall x :: |x| == es ==>
         && ar.mul(x, one) == x && ar.mul(one, x) == x && ar.mul(x, ar.zero) == ar.zero && ar.mul(ar.zero, x) == ar.zero
         && ar.add(x, ar.zero) == x && ar.add(ar.zero, x) == x
  }

  // The n by n identity matrix.
  ghost predicate IsIdentity(ar: Arith, one: seq<Byte>, e: seq<Byte>, n: nat, es: nat) {
    forall row, col :: 0 <= row < n && 0 <= col < n ==> UnitAt(ar, one, e, n, row, col, es)
  }

  ghost predicate UnitAt(ar: Arith, one: seq<Byte>, e: seq<Byte>, n: nat, row: nat, col: nat, es: nat) {
    Entry(e, row * n + col, es) == if row == col then one else ar.zero
  }

  lemma {:induction false} DotWithUnit(ar: Arith, one: seq<Byte>, a: seq<Byte>, e: seq<Byte>, n: nat, row: nat, col: nat, t: nat, es: nat)
    requires Neutral(ar, one, es) && IsIdentity(ar, one, e, n, es) && col < n && t <= n
    requires forall i :: 0 <= i < n ==> |Entry(a, Flat(row, i, n), es)| == es
    ensures Dot(ar, a, e, n, n, row, col, t, es) == if col < t then Entry(a, Flat(row, col, n), es) else ar.zero
    decreases t
  {
    hide Entry;
    if t > 0 {
      DotWithUnit(ar, one, a, e, n, row, col, t - 1, es);
      assert UnitAt(ar, one, e, n, t - 1, col, es);
    }
  }

  lemma {:induction false} UnitWithDot(ar: Arith, one: seq<Byte>, e: seq<Byte>, b: seq<Byte>, m: nat, n: nat, row: nat, col: nat, t: nat, es: nat)
    requires Neutral(ar, one, es) && IsIdentity(ar, one, e, m, es) && row < m && t <= m
    requires forall i :: 0 <= i < m ==> |Entry(b, Flat(i, col, n), es)| == es
    ensures Dot(ar, e, b, m, n, row, col, t, es) == if row < t then Entry(b, Flat(row, col, n), es) else ar.zero
    decreases t
  {
    hide Entry;
    if t > 0 {
      UnitWithDot(ar, one, e, b, m, n, row, col, t - 1, es);
      assert UnitAt(ar, one, e, m, row, t - 1, es);
    }
  }

  lemma ElementWidth(c: seq<Byte>, i: nat, count: nat, es: nat)
    requires i < count && count * es <= |c|
    ensures |Entry(c, i, es)| == es
  {
    InsideBelow(i, count, es, |c|);
  }

  /** A times the identity is A, element by element. */
  lemma TimesIdentity(ar: Arith, one: seq<Byte>, a: seq<Byte>, e: seq<Byte>, c: seq<Byte>, m: nat, n: nat, es: nat)
    requires IsProduct(ar, a, e, c, m, n, n, es) && Neutral(ar, one, es) && IsIdentity(ar, one, e, n, es)
    ensures forall row, col :: 0 <= row < m && 0 <= col < n ==> Entry(c, Flat(row, col, n), es) == Entry(a, Flat(row, col, n), es)
  {
    hide Entry, Neutral, IsIdentity, Flat;
    forall row, col | 0 <= row < m && 0 <= col < n
      ensures Entry(c, Flat(row, col, n), es) == Entry(a, Flat(row, col, n), es)
    {
      forall i | 0 <= i < n ensures |Entry(a, Flat(row, i, n), es)| == es {
        FlatIndex(row, i, m, n);
        ElementWidth(a, Flat(row, i, n), m * n, es);
      }
      assert EntryIs(ar, a, e, c, n, n, row, col, es);
      DotWithUnit(ar, one, a, e, n, row, col, n, es);
    }
  }

  /** The identity times B is B. */
  lemma IdentityTimes(ar: Arith, one: seq<Byte>, e: seq<Byte>, b: seq<Byte>, c: seq<Byte>, m: nat, n: nat, es: nat)
    requires IsProduct(ar, e, b, c, m, m, n, es) && Neutral(ar, one, es) && IsIdentity(ar, one, e, m, es)
    ensures forall row, col :: 0 <= row < m && 0 <= col < n ==> Entry(c, Flat(row, col, n), es) == Entry(b, Flat(row, col, n), es)
  {
    hide Entry, Neutral, IsIdentity, Flat;
    forall row, col | 0 <= row < m && 0 <= col < n
      ensures Entry(c, Flat(row, col, n), es) == Entry(b, Flat(row, col, n), es)
    {
      forall i | 0 <= i < m ensures |Entry(b, Flat(i, col, n), es)| == es {
        FlatIndex(i, col, m, n);
        ElementWidth(b, Flat(i, col, n), m * n, es);
      }
      assert EntryIs(ar, e, b, c, m, n, row, col, es);
      UnitWithDot(ar, one, e, b, m, n, row, col, m, es);
    }
  }

  /** Each element of A * B + D is that sum plus the element of D at its place. */
  lemma PlusElement(ar: Arith, a: seq<Byte>, b: seq<Byte>, d: seq<Byte>, e: seq<Byte>, m: nat, k: nat, n: nat, row: nat, col: nat, es: nat)
    requires IsProductPlus(ar, a, b, d, e, m, k, n, es) && row < m && col < n
    ensures Entry(e, Flat(row, col, n), es)
         == ar.add(SumOf(ar, k, (t: nat) => ar.mul(Entry(a, Flat(row, t, k), es), Entry(b, Flat(t, col, n), es))),
                   Entry(d, Flat(row, col, n), es))
  {
    hide Entry, InBounds, Dot;
    assert PlusAt(ar, a, b, d, e, k, n, row, col, es);
    DotIsSum(ar, a, b, k, n, row, col, k, es);
  }

  /** Each element of an element-wise result is f of the two at its place, as bytes. */
  lemma ZipElement(f: (seq<Byte>, seq<Byte>) -> seq<Byte>, a: seq<Byte>, b: seq<Byte>, c: seq<Byte>, count: nat, i: nat, es: nat)
    requires IsZip(f, a, b, c, count, es) && i < count
    ensures 0 <= i * es && i * es + es <= |a| && i * es + es <= |b| && i * es + es <= |c|
    ensures c[i * es..i * es + es] == f(a[i * es..i * es + es], b[i * es..i * es + es])
  {
    InBuffer(i, count, es);
    Offsets(i, es);
    EntryBytes(a, i, es);
    EntryBytes(b, i, es);
    EntryBytes(c, i, es);
    assert ZipAt(f, a, b, c, i, es);
  }
}
