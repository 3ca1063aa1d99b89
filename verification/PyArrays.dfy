/**
 The array layer of cudabridge_python.c over the runtime: upload, download, free, element-wise
 operations and the matrix product, with the usage counters.
 */
module PyArrays {
  import opened Words
  import opened GpuSpec
  import opened GpuTables
  import opened GpuContext
  import opened CudaRuntime
  import opened PyArraySpec

  // ---------------------------------------------------------------- host buffers

  lemma EntryWas(c: seq<Byte>, i: nat, es: nat, word: seq<Byte>)
    requires Inside(i, es, |c|) && |word| == es
    requires forall d :: 0 <= d < es ==> 0 <= i * es + d < |c| && c[i * es + d] == word[d]
    ensures Entry(c, i, es) == word
  {
    Offsets(i, es);
  }

  lemma SpanApart(i: nat, j: nat, es: nat)
    requires i != j
    ensures i * es + es <= j * es || j * es + es <= i * es
  {
    MulLess(i, j, es);
    MulLess(j, i, es);
  }

  // Stores one element.
  method Put(out: array<Byte>, i: nat, es: nat, word: seq<Byte>)
    requires Inside(i, es, out.Length) && |word| == es
    modifies out
    ensures Entry(out[..], i, es) == word
    ensures forall j: nat :: j != i ==> Entry(out[..], j, es) == old(Entry(out[..], j, es))
  {
    Offsets(i, es);
    var start := i * es;
    for d := 0 to es
      invariant forall e :: 0 <= e < out.Length ==> out[e] == if start <= e < start + d then word[e - start] else old(out[e])
    {
      out[start + d] := word[d];
    }
    EntryWas(out[..], i, es, word);
    forall j: nat | j != i ensures Entry(out[..], j, es) == old(Entry(out[..], j, es)) {
      Offsets(j, es);
      SpanApart(i, j, es);
    }
  }

  // Loads one element.
  method Get(a: array<Byte>, i: nat, es: nat) returns (word: seq<Byte>)
    requires Inside(i, es, a.Length)
    ensures word == Entry(a[..], i, es)
  {
    Offsets(i, es);
    word := a[i * es..(i + 1) * es];
  }

  /** The inner loop: one entry of the product, summed from the left.  An access outside a buffer is a fault
      and ends the run here. */
  method InnerProduct(ar: Arith, a: array<Byte>, b: array<Byte>, k: nat, n: nat, row: nat, col: nat, es: nat)
    returns (fault: bool, sum: seq<Byte>)
    requires Arithmetic(ar, es)
    ensures fault <==> exists inner :: 0 <= inner < k && !TermOk(k, n, row, col, inner, a.Length, b.Length, es)
    ensures !fault ==> sum == Dot(ar, a[..], b[..], k, n, row, col, k, es) && |sum| == es
  {
    hide Inside, Flat, Entry;
    sum := ar.zero;
    for inner := 0 to k
      invariant |sum| == es && sum == Dot(ar, a[..], b[..], k, n, row, col, inner, es)
      invariant forall t :: 0 <= t < inner ==> TermOk(k, n, row, col, t, a.Length, b.Length, es)
    {
      if !Inside(Flat(row, inner, k), es, a.Length) || !Inside(Flat(inner, col, n), es, b.Length) {
        assert !TermOk(k, n, row, col, inner, a.Length, b.Length, es);
        return true, [];
      }
      var x := Get(a, Flat(row, inner, k), es);
      var y := Get(b, Flat(inner, col, n), es);
      sum := ar.add(sum, ar.mul(x, y));
    }
    fault := false;
  }

  /** The nested loops of cbpy_matmul over flat buffers: they fault exactly when the sizes are not in bounds,
      and otherwise fill every entry of the product. */
  method Multiply(ar: Arith, a: array<Byte>, b: array<Byte>, m: nat, k: nat, n: nat, es: nat)
    returns (fault: bool, out: array<Byte>)
    requires Arithmetic(ar, es) && 0 < es
    ensures fresh(out) && (fault <==> !InBounds(m, k, n, a.Length, b.Length, es))
    ensures !fault ==> IsProduct(ar, a[..], b[..], out[..], m, k, n, es)
  {
    hide InBounds, PlaceOk, EntryIs;
    out := new Byte[OutputSize(m, n, es)](_ => 0);
    ProductInBounds(m, k, n, a.Length, b.Length, es);
    for row := 0 to m
      invariant forall r, c :: 0 <= r < row && 0 <= c < n ==> EntryIs(ar, a[..], b[..], out[..], k, n, r, c, es)
      invariant forall r, c :: 0 <= r < row && 0 <= c < n ==> PlaceOk(k, n, r, c, a.Length, b.Length, out.Length, es)
    {
      fault := MultiplyRow(ar, a, b, out, k, n, row, es);
      if fault {
        return;
      }
    }
    OutputExact(m, k, n, a.Length, b.Length, es);
    fault := false;
  }

  // Without a fault the output has the size of the whole product.
  lemma OutputExact(m: nat, k: nat, n: nat, la: nat, lb: nat, es: nat)
    requires InBounds(m, k, n, la, lb, es)
    ensures OutputSize(m, n, es) == m * n * es
  {
    WrapSmall(if m * n < WORD then m * n else 0);
    assert m == 0 || n == 0 ==> m * n == 0;
    hide Wrap;
  }

  method MultiplyRow(ar: Arith, a: array<Byte>, b: array<Byte>, out: array<Byte>, k: nat, n: nat, row: nat, es: nat)
    returns (fault: bool)
    requires Arithmetic(ar, es) && out != a && out != b
    modifies out
    ensures fault <==> exists c :: 0 <= c < n && !PlaceOk(k, n, row, c, a.Length, b.Length, out.Length, es)
    ensures !fault ==> forall c :: 0 <= c < n ==> EntryIs(ar, a[..], b[..], out[..], k, n, row, c, es)
    ensures !fault ==> forall r, c ::
      0 <= r && r != row && 0 <= c < n && old(EntryIs(ar, a[..], b[..], out[..], k, n, r, c, es)) ==>
      EntryIs(ar, a[..], b[..], out[..], k, n, r, c, es)
  {
    hide PlaceOk, EntryIs;
    for col := 0 to n
      invariant forall c :: 0 <= c < col ==> PlaceOk(k, n, row, c, a.Length, b.Length, out.Length, es)
      invariant forall c :: 0 <= c < col ==> EntryIs(ar, a[..], b[..], out[..], k, n, row, c, es)
      invariant forall r, c ::
        0 <= r && r != row && 0 <= c < n && old(EntryIs(ar, a[..], b[..], out[..], k, n, r, c, es)) ==>
        EntryIs(ar, a[..], b[..], out[..], k, n, r, c, es)
    {
      fault := PutEntry(ar, a, b, out, k, n, row, col, es);
      if fault {
        return;
      }
    }
    fault := false;
  }

  method PutEntry(ar: Arith, a: array<Byte>, b: array<Byte>, out: array<Byte>, k: nat, n: nat, row: nat, col: nat, es: nat)
    returns (fault: bool)
    requires col < n && Arithmetic(ar, es) && out != a && out != b
    modifies out
    ensures fault <==> !PlaceOk(k, n, row, col, a.Length, b.Length, out.Length, es)
    ensures !fault ==> EntryIs(ar, a[..], b[..], out[..], k, n, row, col, es)
    ensures !fault ==> forall r, c ::
      0 <= r && 0 <= c < n && (r != row || c != col) && old(EntryIs(ar, a[..], b[..], out[..], k, n, r, c, es)) ==>
      EntryIs(ar, a[..], b[..], out[..], k, n, r, c, es)
  {
    hide Inside, Flat, Entry, Arithmetic;
    var sum;
    fault, sum := InnerProduct(ar, a, b, k, n, row, col, es);
    if fault || !Inside(Flat(row, col, n), es, out.Length) {
      return true;
    }
    Put(out, Flat(row, col, n), es, sum);
    forall r: nat, c: nat | c < n && (r != row || c != col) && old(EntryIs(ar, a[..], b[..], out[..], k, n, r, c, es))
      ensures EntryIs(ar, a[..], b[..], out[..], k, n, r, c, es)
    {
      if Flat(r, c, n) == Flat(row, col, n) {
        FlatInjective(r, c, row, col, n);
      }
    }
  }

  /** The loop of binary_host_op, f on each pair of elements: it faults exactly when some buffer is too short
      for that many elements. */
  method Zip(f: (seq<Byte>, seq<Byte>) -> seq<Byte>, a: array<Byte>, b: array<Byte>, size: nat, count: nat, es: nat)
    returns (fault: bool, out: array<Byte>)
    requires Width(f, es)
    ensures fresh(out) && out.Length == size
    ensures fault <==> !(count * es <= a.Length && count * es <= b.Length && count * es <= size)
    ensures !fault ==> IsZip(f, a[..], b[..], out[..count * es], count, es)
  {
    hide Inside, Entry, ZipAt, Width;
    out := new Byte[size](_ => 0);
    for i := 0 to count
      invariant forall j :: 0 <= j < i ==> ZipAt(f, a[..], b[..], out[..], j, es)
      invariant forall j :: 0 <= j < i ==> Inside(j, es, a.Length) && Inside(j, es, b.Length) && Inside(j, es, size)
    {
      if !Inside(i, es, a.Length) || !Inside(i, es, b.Length) || !Inside(i, es, size) {
        NotInside(i, count, es, a.Length, b.Length, size);
        fault := true;
        return;
      }
      ZipPut(f, a, b, out, i, es);
    }
    fault := false;
    AllInside(count, es, a.Length);
    AllInside(count, es, b.Length);
    AllInside(count, es, size);
    ZipPrefix(f, a[..], b[..], out[..], count, es);
  }

  lemma NotInside(i: nat, count: nat, es: nat, la: nat, lb: nat, lo: nat)
    requires i < count && !(Inside(i, es, la) && Inside(i, es, lb) && Inside(i, es, lo))
    ensures !(count * es <= la && count * es <= lb && count * es <= lo)
  {
    InBuffer(i, count, es);
  }

  lemma AllInside(count: nat, es: nat, length: nat)
    requires forall j :: 0 <= j < count ==> Inside(j, es, length)
    ensures 0 <= count * es <= length
  {
    if count > 0 {
      assert Inside(count - 1, es, length);
    }
  }

  lemma ZipPrefix(f: (seq<Byte>, seq<Byte>) -> seq<Byte>, a: seq<Byte>, b: seq<Byte>, c: seq<Byte>, count: nat, es: nat)
    requires count * es <= |a| && count * es <= |b| && 0 <= count * es <= |c|
    requires forall i :: 0 <= i < count ==> ZipAt(f, a, b, c, i, es)
    ensures IsZip(f, a, b, c[..count * es], count, es)
  {
    hide Entry, Inside;
    forall i | 0 <= i < count ensures ZipAt(f, a, b, c[..count * es], i, es) {
      InsideBelow(i, count, es, count * es);
      EntryOfPrefix(c, count * es, i, es);
      assert ZipAt(f, a, b, c, i, es);
    }
  }

  method ZipPut(f: (seq<Byte>, seq<Byte>) -> seq<Byte>, a: array<Byte>, b: array<Byte>, out: array<Byte>, i: nat, es: nat)
    requires Width(f, es) && out != a && out != b
    requires Inside(i, es, a.Length) && Inside(i, es, b.Length) && Inside(i, es, out.Length)
    modifies out
    ensures ZipAt(f, a[..], b[..], out[..], i, es)
    ensures forall j: nat :: j != i && old(ZipAt(f, a[..], b[..], out[..], j, es)) ==> ZipAt(f, a[..], b[..], out[..], j, es)
  {
    hide Entry, Inside;
    var x := Get(a, i, es);
    var y := Get(b, i, es);
    Put(out, i, es, f(x, y));
  }

  // ---------------------------------------------------------------- arrays on the device

  class Handle {
    const size: nat
    const elemCount: nat
    const dtype: DType
    const shape: seq<nat>
    var devicePtr: nat
    var synced: bool

    function Dim(i: nat): nat { if i < |shape| then shape[i] else 0 }

    constructor (elemCount: nat, size: nat, dtype: DType, shape: seq<nat>)
      ensures this.size == size && this.elemCount == elemCount && this.dtype == dtype && this.shape == shape
      ensures devicePtr == 0 && !synced
    {
      this.size, this.elemCount, this.dtype, this.shape := size, elemCount, dtype, shape;
      devicePtr, synced := 0, false;
    }
  }

  /** From power-on: one GPU whose addresses start where the driver's do, the runtime, and this layer. */
  method Start(vramSize: nat) returns (context: Context)
    ensures fresh(context) && fresh(context.runtime) && fresh(context.runtime.hostAllocs) && fresh(context.runtime.Device())
    ensures context.Valid() && context.initialized && context.live == [] && context.runtime.gpu.table == []
    ensures context.Counters() == Usage(0, 0, 0, 0)
    ensures context.runtime.State() == (Gpu([], [], vramSize, vramSize, 0), 0x2_0000_0000)
  {
    var runtime := StartRuntime(vramSize);
    hide Runtime.Valid;
    context := new Context(runtime);
  }

  method StartRuntime(vramSize: nat) returns (runtime: Runtime)
    ensures fresh(runtime) && fresh(runtime.hostAllocs) && fresh(runtime.Device())
    ensures runtime.Valid() && runtime.ready && runtime.gpu.table == []
    ensures runtime.State() == (Gpu([], [], vramSize, vramSize, 0), 0x2_0000_0000)
  {
    var counter := new AddressCounter(0x2_0000_0000);
    var gpu := new GpuContext.Context(counter, vramSize);
    hide GpuContext.Context.Valid;
    runtime := new Runtime(gpu);
  }

  /** A whole session, from power-on to the product in a host buffer: with room for three arrays it cannot
      fail. */
  method Session(vramSize: nat, x: array<Byte>, y: array<Byte>, m: nat, k: nat, n: nat, dtype: DType, ar: Arith, out: array<Byte>)
    requires (dtype == Float32 || dtype == Float64) && Arithmetic(ar, dtype.Size())
    requires 0 < m && 0 < k && 0 < n && x != y && out != x && out != y
    requires x.Length == m * k * dtype.Size() <= WORD - DEVICE_PAGE && y.Length == k * n * dtype.Size() <= WORD - DEVICE_PAGE
    requires out.Length == m * n * dtype.Size() <= WORD - DEVICE_PAGE
    requires AlignUp(x.Length, 4096) + AlignUp(y.Length, 4096) + AlignUp(out.Length, 4096) <= vramSize
    modifies out
    ensures x[..] == old(x[..]) && y[..] == old(y[..]) && IsProduct(ar, x[..], y[..], out[..], m, k, n, dtype.Size())
  {
    RoomAtStart(vramSize, m, k, n, dtype.Size());
    hide Room, IsProduct, Arithmetic, Runtime.State, Runtime.Valid, DType.Size, Context.Valid, AlignUp;
    var context := Start(vramSize);
    var ok, a, b, c := context.UploadMultiplyDownload(x, y, m, k, n, dtype, ar, out);
  }

  lemma RoomAtStart(vramSize: nat, m: nat, k: nat, n: nat, es: nat)
    requires 0 < m && 0 < k && 0 < n && 0 < es
    requires AlignUp(m * k * es, 4096) + AlignUp(k * n * es, 4096) + AlignUp(m * n * es, 4096) <= vramSize
    ensures Room(Gpu([], [], vramSize, vramSize, 0), m * k * es, k * n * es, m * n * es)
  {
    hide AlignUp;
    ThreePositive(m, k, es);
    ThreePositive(k, n, es);
    ThreePositive(m, n, es);
  }

  lemma ThreePositive(x: nat, y: nat, z: nat)
    requires 0 < x && 0 < y && 0 < z
    ensures 0 < x * y * z
  {
    assert 0 < x * y;
  }

  // What this layer does to the device keeps its table in order.
  lemma StaysOrdered(g: Gpu, next: nat, op: GpuSpec.Op)
    requires Ordered(g.records, next) && 0 < next
    requires op.ToDevice? || op.ToHost? || (op.Alloc? && op.size + DEVICE_PAGE <= WORD)
    ensures var (g1, next1) := StepGpu(g, next, op); Ordered(g1.records, next1) && 0 < next1
    ensures op.ToHost? ==> StepGpu(g, next, op).0.records == g.records
  {
    StepKeepsOrder(g, next, op);
    hide Ordered;
  }

  ghost function Sizes(live: seq<Handle>): (sizes: seq<nat>)
    ensures |sizes| == |live| && forall i :: 0 <= i < |live| ==> sizes[i] == live[i].size
  {
    seq(|live|, i requires 0 <= i < |live| => live[i].size)
  }

  ghost function Spans(live: seq<Handle>): (spans: seq<Span>)
    reads live`devicePtr
    ensures |spans| == |live| && forall i :: 0 <= i < |live| ==> spans[i] == Span(live[i].devicePtr, live[i].size)
  {
    if live == [] then [] else [Span(live[0].devicePtr, live[0].size)] + Spans(live[1..])
  }

  lemma SpansAdded(live: seq<Handle>, h: Handle)
    ensures Spans([h] + live) == [Span(h.devicePtr, h.size)] + Spans(live)
  {
  }

  lemma SpansRemoved(live: seq<Handle>, i: nat)
    requires i < |live|
    ensures Spans(RemoveIndex(live, i)) == RemoveIndex(Spans(live), i)
  {
    hide Spans, RemoveIndex;
    var left := RemoveIndex(live, i);
    RemovedLength(live, i);
    RemovedLength(Spans(live), i);
    forall j | 0 <= j < |left| ensures Spans(left)[j] == RemoveIndex(Spans(live), i)[j] {
      RemovedAt(live, i, j);
      RemovedAt(Spans(live), i, j);
    }
  }

  lemma SizesAdded(live: seq<Handle>, h: Handle)
    ensures Sizes([h] + live) == [h.size] + Sizes(live)
  {
  }

  lemma CountCreated(u: Usage, live: seq<nat>, n: nat)
    requires Exact(u, live)
    ensures Exact(Grown(u, n), [n] + live)
  {
    StepExact(u, live, UsageOp.Create(n));
  }

  lemma CountReleased(u: Usage, live: seq<nat>, i: nat)
    requires Exact(u, live) && i < |live|
    ensures Exact(Shrunk(u, live[i]), RemoveIndex(live, i)) && Shrunk(u, live[i]).current == u.current - live[i]
  {
    StepExact(u, live, UsageOp.Release(i));
  }

  // Taking one of several different handles leaves different handles, and not that one.
  lemma OthersRemain(live: seq<Handle>, i: nat)
    requires i < |live| && forall j, k :: 0 <= j < k < |live| ==> live[j] != live[k]
    ensures live[i] !in RemoveIndex(live, i)
    ensures forall j, k :: 0 <= j < k < |RemoveIndex(live, i)| ==> RemoveIndex(live, i)[j] != RemoveIndex(live, i)[k]
  {
  }

  lemma SizesRemoved(live: seq<Handle>, i: nat)
    requires i < |live|
    ensures Sizes(RemoveIndex(live, i)) == RemoveIndex(Sizes(live), i)
  {
  }

  class Context {
    const runtime: Runtime
    var initialized: bool
    var totalAllocs: nat
    var totalFrees: nat
    var currentUsage: nat
    var peakUsage: nat
    // The arrays that exist, newest first.
    ghost var live: seq<Handle>

    constructor (runtime: Runtime)
      requires runtime.Valid() && runtime.ready && runtime.gpu.View().records == [] && 0 < runtime.gpu.counter.next
      ensures Valid() && this.runtime == runtime && initialized && Counters() == Usage(0, 0, 0, 0) && live == []
      ensures runtime.State() == old(runtime.State())
    {
      this.runtime := runtime;
      initialized, totalAllocs, totalFrees, currentUsage, peakUsage, live := true, 0, 0, 0, 0, [];
    }

    ghost predicate Valid()
      reads this, live`devicePtr, runtime, runtime.hostAllocs, runtime.gpu, runtime.Device()
    {
      Ready() && Counted() && Owned()
    }

    // Every live array has a record of its own at its device address.
    ghost predicate Owned()
      reads this`live, live`devicePtr, runtime.gpu, runtime.Device()
    {
      AllOwned(Table(), Spans(live))
    }

    // The counters are exact for the live handles, and no handle is live twice.
    ghost predicate Counted()
      reads this`live, this`totalAllocs, this`totalFrees, this`currentUsage, this`peakUsage
    {
      Exact(Counters(), Sizes(live)) && forall i, j :: 0 <= i < j < |live| ==> live[i] != live[j]
    }

    // The device is in order, and records do not overlap.
    ghost predicate Ready()
      reads runtime, runtime.hostAllocs, runtime.gpu, runtime.Device()
    {
      && runtime.Valid() && runtime.ready
      && Ordered(Table(), runtime.gpu.counter.next) && 0 < runtime.gpu.counter.next
    }

    ghost function Table(): seq<Record>
      reads runtime.gpu, runtime.Device()
    {
      runtime.State().0.records
    }

    ghost function Counters(): Usage
      reads this`totalAllocs, this`totalFrees, this`currentUsage, this`peakUsage
    {
      Usage(totalAllocs, totalFrees, currentUsage, peakUsage)
    }

    lemma TableIs()
      ensures Table() == runtime.State().0.records
    {
    }

    lemma Shows(g: Gpu, next: nat)
      requires runtime.Valid() && runtime.ready && runtime.State() == (g, next) && Ordered(g.records, next) && 0 < next
      ensures Ready() && Table() == g.records
    {
    }

    lemma Parts()
      requires Valid()
      ensures Ready() && Counted() && AllOwned(Table(), Spans(live))
    {
    }

    lemma Whole()
      requires Ready() && Counted() && AllOwned(Table(), Spans(live))
      ensures Valid()
    {
    }

    // Live arrays are no part of the device, so what the device does leaves their addresses alone.
    lemma SpansApart(mine: seq<Handle>)
      ensures this !in runtime.Device() && forall i :: 0 <= i < |mine| ==> mine[i] !in runtime.Device()
    {
    }

    /** A live array's memory is there, and no other live array has the same. */
    lemma LiveOnDevice(h: Handle)
      requires Valid() && h in live
      ensures h.devicePtr != 0 && Covered(Table(), h.devicePtr, h.size) && OnDevice(h, Read(Table(), h.devicePtr, h.size))
      ensures forall g :: g in live && g != h ==> g.devicePtr != h.devicePtr
    {
      hide Spans;
      var i :| 0 <= i < |live| && live[i] == h;
      OthersOwn(Table(), live, i);
      OwnsIndex(Table(), live, i, i);
    }

    lemma NowCounted()
      requires Exact(Counters(), Sizes(live)) && forall i, j :: 0 <= i < j < |live| ==> live[i] != live[j]
      ensures Counted()
    {
    }

    lemma CountedParts()
      requires Counted()
      ensures Exact(Counters(), Sizes(live)) && forall i, j :: 0 <= i < j < |live| ==> live[i] != live[j]
    {
    }

    // The device is not touched by what this context counts.
    twostate lemma DeviceUntouched()
      requires unchanged(runtime) && unchanged(runtime.hostAllocs) && unchanged(runtime.gpu)
      requires unchanged(runtime.gpu.allocations) && unchanged(runtime.gpu.channels) && unchanged(runtime.gpu.counter)
      requires forall a | a in runtime.gpu.table :: unchanged(a.store)
      ensures runtime.State() == old(runtime.State()) && (old(Ready()) ==> Ready()) && Table() == old(Table())
      ensures runtime.Device() == old(runtime.Device())
    {
      NoStoreChanged(runtime.gpu.table);
    }

    // The counters after n bytes were added, or taken away.
    method AddUsage(n: nat)
      modifies this`totalAllocs, this`currentUsage, this`peakUsage
      ensures Counters() == Grown(old(Counters()), n)
      ensures totalAllocs == old(totalAllocs) + 1 && currentUsage == old(currentUsage) + n
      ensures peakUsage == if currentUsage > old(peakUsage) then currentUsage else old(peakUsage)
    {
      totalAllocs := totalAllocs + 1;
      currentUsage := currentUsage + n;
      if currentUsage > peakUsage {
        peakUsage := currentUsage;
      }
    }

    method SubtractUsage(n: nat)
      modifies this`totalFrees, this`currentUsage
      ensures Counters() == Shrunk(old(Counters()), n)
      ensures totalFrees == old(totalFrees) + 1
      ensures currentUsage == if n <= old(currentUsage) then old(currentUsage) - n else 0
    {
      totalFrees := totalFrees + 1;
      if currentUsage >= n {
        currentUsage := currentUsage - n;
      } else {
        currentUsage := 0;
      }
    }

    // A new array is live and counted.
    method CountUp(h: Handle)
      requires Counted() && h !in live
      modifies this`totalAllocs, this`currentUsage, this`peakUsage, this`live
      ensures Counted() && live == [h] + old(live)
      ensures Counters() == Grown(old(Counters()), h.size)
    {
      hide *;
      CountedParts();
      SizesAdded(live, h);
      CountCreated(Counters(), Sizes(live), h.size);
      AddUsage(h.size);
      live := [h] + live;
      NowCounted();
    }

    // The i-th live array is gone and no longer counted; the clamp is never taken.
    method CountDown(ghost i: nat, h: Handle)
      requires Counted() && i < |live| && live[i] == h
      modifies this`totalFrees, this`currentUsage, this`live
      ensures Counted() && live == RemoveIndex(old(live), i) && h !in live
      ensures Counters() == Shrunk(old(Counters()), h.size) && currentUsage == old(currentUsage) - h.size
    {
      hide *;
      CountedParts();
      SizesRemoved(live, i);
      CountReleased(Counters(), Sizes(live), i);
      OthersRemain(live, i);
      CurrentIs();
      SubtractUsage(h.size);
      CurrentIs();
      live := RemoveIndex(live, i);
      NowCounted();
    }

    lemma CurrentIs()
      ensures Counters().current == currentUsage
    {
    }

    // A handle for an array at ptr; nothing else changes.
    method NewHandle(elemCount: nat, size: nat, dtype: DType, shape: seq<nat>, ptr: nat) returns (h: Handle)
      requires Ready()
      ensures Ready() && runtime.State() == old(runtime.State())
      ensures fresh(h) && h.elemCount == elemCount && h.size == size && h.dtype == dtype && h.shape == shape
      ensures h.devicePtr == ptr && h.synced
    {
      h := new Handle(elemCount, size, dtype, shape);
      h.devicePtr := ptr;
      h.synced := true;
      NoStoreChanged(runtime.gpu.table);
    }

    // A host buffer; nothing else changes.
    method NewBuffer(n: nat) returns (buffer: array<Byte>)
      requires Ready()
      ensures Ready() && runtime.State() == old(runtime.State())
      ensures fresh(buffer) && buffer.Length == n && buffer !in Stores(runtime.gpu.table)
    {
      buffer := new Byte[n](_ => 0);
      NoStoreChanged(runtime.gpu.table);
    }

    // Device memory for an array, or 0.
    method Reserve(size: nat, storeOk: bool, recordOk: bool) returns (ptr: nat)
      requires Ready() && 0 < size && size + DEVICE_PAGE <= WORD
      modifies runtime`lastError, runtime.Device()
      ensures Ready() && fresh(Stores(runtime.gpu.table) - old(Stores(runtime.gpu.table)))
      ensures runtime.State() == StepGpu(old(runtime.State()).0, old(runtime.State()).1, Alloc(0, size, VideoMem, storeOk, recordOk))
      ensures ptr == if AllocMemory(old(runtime.State()).0, old(runtime.State()).1, size, VideoMem, storeOk, recordOk).2 == Success
        then old(runtime.State()).1 else 0
    {
      hide *;
      Known();
      ghost var (g, next) := runtime.State();
      StaysOrdered(g, next, Alloc(0, size, VideoMem, storeOk, recordOk));
      var error;
      error, ptr := runtime.Malloc(size, storeOk, recordOk);
      ghost var (g1, next1) := StepGpu(g, next, Alloc(0, size, VideoMem, storeOk, recordOk));
      Shows(g1, next1);
      if error != NoError {
        return 0;
      }
    }

    // Copies a host buffer to device memory.
    method Send(ptr: nat, data: array<Byte>, size: nat)
      requires Ready() && ptr != 0 && 0 < size <= data.Length && data !in Stores(runtime.gpu.table)
      modifies runtime`lastError, runtime.Device()
      ensures Ready() && runtime.gpu.table == old(runtime.gpu.table)
      ensures runtime.State() == StepGpu(old(runtime.State()).0, old(runtime.State()).1, Op.ToDevice(0, ptr, data[..size]))
    {
      hide *;
      Known();
      ghost var (g, next) := runtime.State();
      StaysOrdered(g, next, Op.ToDevice(0, ptr, data[..size]));
      NoStore(data);
      var error := runtime.Upload(ptr, data, size);
      ghost var (g1, next1) := StepGpu(g, next, Op.ToDevice(0, ptr, data[..size]));
      Shows(g1, next1);
    }

    // Device memory for an array, with its bytes.
    method Place(data: array<Byte>, size: nat, storeOk: bool, recordOk: bool) returns (ptr: nat)
      requires Ready() && 0 < size <= data.Length && size + DEVICE_PAGE <= WORD && data !in Stores(runtime.gpu.table)
      modifies runtime`lastError, runtime.Device()
      ensures Ready() && fresh(Stores(runtime.gpu.table) - old(Stores(runtime.gpu.table)))
      ensures fresh(runtime.Device() - old(runtime.Device()))
      ensures ptr != 0 <==> storeOk && recordOk && AllocCheck(old(runtime.State()).0, size, VideoMem) == Success
      ensures ptr != 0 ==> Holds(Table(), ptr, data[..size]) && Spent(old(runtime.State()).0, runtime.State().0, size)
      ensures Preserved(old(Table()), Table()) && OwnersKept(old(Table()), Table(), 0)
      ensures ptr != 0 ==> Owns(Table(), ptr, size) && forall n :: !Owns(old(Table()), ptr, n)
      ensures ptr == 0 ==> Table() == old(Table())
    {
      hide Owns, OwnersKept, StepGpu, AllocMemory, AllocCheck, Ordered, Holds, Preserved, Spent, Runtime.Valid, Runtime.State, Records, Context.Ready;
      ghost var (g, next) := runtime.State();
      Known();
      PlaceOutcome(g, next, data[..size], storeOk, recordOk);
      PlaceOwned(g, next, data[..size], storeOk, recordOk);
      SamePreserved(g.records);
      SameOwners(g.records);
      ptr := Reserve(size, storeOk, recordOk);
      if ptr != 0 {
        Send(ptr, data, size);
      }
    }

    lemma Known()
      requires Ready()
      ensures runtime.Valid() && runtime.ready && Table() == runtime.State().0.records
      ensures Ordered(Table(), runtime.State().1) && 0 < runtime.State().1
    {
    }

    // A new array at ptr, live and counted.
    method Enter(elemCount: nat, size: nat, dtype: DType, shape: seq<nat>, ptr: nat) returns (h: Handle)
      requires Ready() && Counted()
      modifies this`totalAllocs, this`currentUsage, this`peakUsage, this`live
      ensures Ready() && Counted() && runtime.State() == old(runtime.State()) && Table() == old(Table())
      ensures runtime.Device() == old(runtime.Device()) && runtime.gpu.table == old(runtime.gpu.table)
      ensures fresh(h) && h.elemCount == elemCount && h.size == size && h.dtype == dtype && h.shape == shape
      ensures h.devicePtr == ptr && h.synced && live == [h] + old(live) && Counters() == Grown(old(Counters()), size)
    {
      hide *;
      h := NewHandle(elemCount, size, dtype, shape, ptr);
      CountUp(h);
      DeviceUntouched();
    }

    // cbpy_to_device.
    method ToDevice(data: array?<Byte>, elemCount: nat, dtype: DType, shape: seq<nat>, handleOk: bool, storeOk: bool, recordOk: bool)
      returns (h: Handle?)
      requires Valid()
      requires data != null ==> TotalSize(elemCount, dtype) <= data.Length <= WORD - DEVICE_PAGE && data !in Stores(runtime.gpu.table)
      modifies this`totalAllocs, this`currentUsage, this`peakUsage, this`live, runtime`lastError, runtime.Device()
      ensures Valid() && fresh(Stores(runtime.gpu.table) - old(Stores(runtime.gpu.table)))
      ensures fresh(runtime.Device() - old(runtime.Device()))
      ensures h != null <==>
        && initialized && data != null && elemCount != 0 && 1 <= |shape| <= 8 && handleOk
        && TotalSize(elemCount, dtype) != 0 && storeOk && recordOk
        && AllocCheck(old(runtime.State()).0, TotalSize(elemCount, dtype), VideoMem) == Success
      ensures h != null ==>
        && fresh(h) && h.elemCount == elemCount && h.dtype == dtype && h.shape == shape && h.synced
        && h.size == TotalSize(elemCount, dtype) && h.devicePtr != 0 && Holds(Table(), h.devicePtr, data[..h.size])
        && Spent(old(runtime.State()).0, runtime.State().0, h.size)
      ensures live == if h != null then [h] + old(live) else old(live)
      ensures Counters() == if h != null then Grown(old(Counters()), h.size) else old(Counters())
      ensures Preserved(old(Table()), Table()) && initialized == old(initialized) && (h == null ==> Table() == old(Table()))
      ensures !initialized || data == null || elemCount == 0 || !(1 <= |shape| <= 8) ==> runtime.State() == old(runtime.State())
    {
      hide *;
      SamePreserved(Table());
      SpansApart(live);
      Parts();
      if !initialized || data == null || elemCount == 0 || |shape| < 1 || |shape| > 8 {
        return null;
      }
      var size := TotalSize(elemCount, dtype);
      if !handleOk || size == 0 {
        return null;
      }
      h := null;
      ghost var before, mine, spans := Table(), live, Spans(live);
      var ptr := Place(data, size, storeOk, recordOk);
      assert Spans(mine) == spans;
      if ptr != 0 {
        h := Enter(elemCount, size, dtype, shape, ptr);
        SpansAdded(mine, h);
        AddedOwned(before, Table(), spans, Span(ptr, size));
      } else {
        StillOwned(before, Table(), spans);
      }
      Whole();
    }

    // The array's device memory holds exactly these bytes.
    ghost predicate OnDevice(h: Handle, data: seq<Byte>)
      reads h, runtime.gpu, runtime.Device()
    {
      h.devicePtr != 0 && h.size == |data| && Holds(Table(), h.devicePtr, data)
    }

    // validate_array.
    predicate Usable(h: Handle?)
      reads h
    {
      h != null && h.devicePtr != 0 && h.size != 0
    }

    // If the code accepts the array, its device memory holds these bytes.
    ghost predicate Operand(h: Handle?, data: seq<Byte>)
      reads h, runtime.gpu, runtime.Device()
    {
      Usable(h) ==> OnDevice(h, data)
    }

    // copy_to_host: a fresh host buffer with the array's bytes.
    method Fetch(h: Handle?, bufferOk: bool) returns (buffer: array?<Byte>)
      requires Ready()
      modifies runtime`lastError, runtime.gpu
      ensures Ready() && runtime.gpu.table == old(runtime.gpu.table) && Table() == old(Table())
      ensures runtime.State().0 == old(runtime.State()).0.(transferred := runtime.State().0.transferred)
      ensures buffer != null <==> h != null && h.devicePtr != 0 && h.size != 0 && bufferOk
      ensures buffer != null ==> fresh(buffer) && buffer.Length == h.size && Delivers(old(Table()), h.devicePtr, buffer[..])
    {
      hide *;
      ghost var (g, next) := runtime.State();
      Known();
      if h == null || h.devicePtr == 0 || h.size == 0 || !bufferOk {
        return null;
      }
      buffer := NewBuffer(h.size);
      assert buffer[..buffer.Length] == buffer[..];
      FetchOutcome(g, next, buffer[..], h.devicePtr);
      Receive(buffer, h.devicePtr, h.size);
      Known();
      assert buffer[..buffer.Length] == buffer[..];
    }

    // Copies device memory to a host buffer.
    method Receive(buffer: array<Byte>, ptr: nat, size: nat)
      requires Ready() && ptr != 0 && 0 < size <= buffer.Length && buffer !in Stores(runtime.gpu.table)
      modifies runtime`lastError, runtime.gpu, buffer
      ensures Ready() && runtime.gpu.table == old(runtime.gpu.table)
      ensures runtime.State() == StepGpu(old(runtime.State()).0, old(runtime.State()).1, ToHost(0, ptr, size))
      ensures buffer[..size] == CopyToHost(old(runtime.State()).0, old(buffer[..size]), ptr)
      ensures buffer[size..] == old(buffer[size..])
    {
      hide *;
      Known();
      ghost var (g, next) := runtime.State();
      StaysOrdered(g, next, ToHost(0, ptr, size));
      var error := runtime.Download(buffer, ptr, size);
      ghost var (g1, next1) := StepGpu(g, next, ToHost(0, ptr, size));
      Shows(g1, next1);
    }

    // cbpy_from_device.
    method FromDevice(h: Handle?, data: array?<Byte>) returns (ok: bool)
      requires Valid()
      requires h != null && data != null ==> h.size <= data.Length && data !in Stores(runtime.gpu.table)
      modifies runtime`lastError, runtime.gpu, data, h
      ensures Valid() && runtime.gpu.table == old(runtime.gpu.table) && Table() == old(Table())
      ensures ok <==> h != null && old(h.devicePtr) != 0 && h.size != 0 && data != null
      ensures h != null ==> h.devicePtr == old(h.devicePtr)
      ensures ok ==> Delivers(Table(), h.devicePtr, data[..h.size])
      ensures !ok && data != null ==> data[..] == old(data[..])
    {
      hide *;
      Parts();
      TableIs();
      ghost var (g, next) := runtime.State();
      if h == null || h.devicePtr == 0 || h.size == 0 || data == null {
        return false;
      }
      FetchOutcome(g, next, data[..h.size], h.devicePtr);
      Receive(data, h.devicePtr, h.size);
      Synced(h);
      TableIs();
      Whole();
      return true;
    }

    method Synced(h: Handle)
      requires Ready()
      modifies h`synced
      ensures Ready() && runtime.State() == old(runtime.State())
    {
      h.synced := true;
      NoStoreChanged(runtime.gpu.table);
    }

    /** cbpy_free: the array's record goes, every other array stays as it is, and the counters stay exact:
        usage falls by the array's size. */
    method Free(h: Handle?)
      requires Valid() && (h != null ==> h in live && h.devicePtr !in runtime.tracked)
      modifies this`totalFrees, this`currentUsage, this`live, h
      modifies runtime`lastError, runtime`hostAllocCount, runtime`tracked, runtime.hostAllocs, runtime.Device()
      ensures Valid() && OthersKept(old(Table()), Table(), if h == null then 0 else old(h.devicePtr))
      ensures runtime.State() == if h == null || old(h.devicePtr) == 0 then old(runtime.State())
        else StepGpu(old(runtime.State()).0, old(runtime.State()).1, Op.Free(0, old(h.devicePtr), SystemMem, 0))
      ensures h != null && old(h.devicePtr) != 0 ==> IndexAt(Table(), old(h.devicePtr)) == |Table()|
      ensures Counters() == if h == null then old(Counters()) else Shrunk(old(Counters()), h.size)
      ensures h == null ==> live == old(live)
      ensures h != null ==>
        forall g, data :: g in old(live) && g != h && old(OnDevice(g, data)) ==> OnDevice(g, data)
      ensures h != null ==>
        && h.devicePtr == 0 && h !in live && currentUsage == old(currentUsage) - h.size
        && exists i :: 0 <= i < |old(live)| && old(live)[i] == h && live == RemoveIndex(old(live), i)
    {
      hide *;
      NothingFreed(Table());
      Parts();
      SpansApart(live);
      AllHeld();
      if h == null {
        return;
      }
      ghost var i :| 0 <= i < |live| && live[i] == h;
      ghost var before, mine, ptr := Table(), live, h.devicePtr;
      ghost var left := RemoveIndex(live, i);
      OthersOwn(before, live, i);
      CountedParts();
      OthersRemain(live, i);
      SpansRemoved(live, i);
      SpansApart(left);
      ghost var spans := Spans(left);
      Discard(h.devicePtr);
      RemovedOwned(before, Table(), Spans(mine), i);
      Forget(h, i);
      assert Spans(live) == spans;
      Whole();
      forall g, data | g in mine && g != h && old(OnDevice(g, data)) ensures OnDevice(g, data) {
        OthersHold(before, Table(), ptr, g.devicePtr, g.size);
        IsOnDevice(g, data);
      }
    }

    // The other live arrays own other records.
    lemma OthersOwn(records: seq<Record>, mine: seq<Handle>, i: nat)
      requires AllOwned(records, Spans(mine)) && i < |mine|
      ensures mine[i].devicePtr != 0
      ensures forall g :: g in mine && g != mine[i] ==> g.devicePtr != mine[i].devicePtr && Owns(records, g.devicePtr, g.size)
    {
      hide *;
      OwnsIndex(records, mine, i, i);
      forall g | g in mine && g != mine[i] ensures g.devicePtr != mine[i].devicePtr && Owns(records, g.devicePtr, g.size) {
        var j :| 0 <= j < |mine| && mine[j] == g;
        OwnsIndex(records, mine, i, j);
      }
    }

    lemma OwnsIndex(records: seq<Record>, mine: seq<Handle>, i: nat, j: nat)
      requires AllOwned(records, Spans(mine)) && i < |mine| && j < |mine|
      ensures mine[j].devicePtr != 0 && Owns(records, mine[j].devicePtr, mine[j].size)
      ensures i != j ==> mine[i].devicePtr != mine[j].devicePtr
    {
      hide Owns, Spans;
      var spans := Spans(mine);
      assert spans[j].ptr == mine[j].devicePtr && spans[i].ptr == mine[i].devicePtr;
    }

    lemma NothingFreed(records: seq<Record>)
      ensures forall ptr :: OthersKept(records, records, ptr)
    {
      hide Covered, Read;
    }

    // What the live arrays hold, in terms of the table.
    lemma AllHeld()
      ensures forall g, data :: g in live && OnDevice(g, data) ==> g.size == |data| && Holds(Table(), g.devicePtr, data)
    {
      hide Holds;
    }

    method Discard(ptr: nat)
      requires Ready() && ptr != 0 && ptr !in runtime.tracked
      modifies runtime`lastError, runtime`hostAllocCount, runtime`tracked, runtime.hostAllocs, runtime.Device()
      ensures Ready() && OthersKept(old(Table()), Table(), ptr) && IndexAt(Table(), ptr) == |Table()|
      ensures OwnersKept(old(Table()), Table(), ptr)
      ensures runtime.State() == StepGpu(old(runtime.State()).0, old(runtime.State()).1, Op.Free(0, ptr, SystemMem, 0))
    {
      hide *;
      Known();
      ghost var (g, next) := runtime.State();
      FreeOutcome(g, next, ptr);
      FreeOwned(g, next, ptr);
      var error := runtime.Free(ptr);
      ghost var (g1, next1) := StepGpu(g, next, Op.Free(0, ptr, SystemMem, 0));
      Shows(g1, next1);
    }

    // The handle of the i-th live array goes.
    method Forget(h: Handle, ghost i: nat)
      requires Ready() && Counted() && i < |live| && live[i] == h
      modifies this`totalFrees, this`currentUsage, this`live, h`devicePtr
      ensures Ready() && Counted() && runtime.State() == old(runtime.State()) && Table() == old(Table())
      ensures Counters() == Shrunk(old(Counters()), h.size) && h.devicePtr == 0
      ensures live == RemoveIndex(old(live), i) && h !in live && currentUsage == old(currentUsage) - h.size
    {
      hide *;
      h.devicePtr := 0;
      CountDown(i, h);
      DeviceUntouched();
    }

    // What cbpy_matmul checks before it computes.
    predicate Compatible(a: Handle, b: Handle) {
      && |a.shape| == 2 && |b.shape| == 2 && a.Dim(1) == b.Dim(0) && a.dtype == b.dtype
      && (a.dtype == Float32 || a.dtype == Float64)
    }

    // The elements its shape asks for are in a two-dimensional array.
    predicate Fits(h: Handle) {
      |h.shape| == 2 ==> h.Dim(0) * h.Dim(1) * h.dtype.Size() <= h.size
    }

    // Both operands as host buffers.
    method FetchBoth(a: Handle, b: Handle, ghost av: seq<Byte>, ghost bv: seq<Byte>, aOk: bool, bOk: bool)
      returns (x: array?<Byte>, y: array?<Byte>)
      requires Ready() && OnDevice(a, av) && OnDevice(b, bv)
      modifies runtime`lastError, runtime.gpu
      ensures Ready() && runtime.gpu.table == old(runtime.gpu.table) && Table() == old(Table())
      ensures runtime.State().0 == old(runtime.State()).0.(transferred := runtime.State().0.transferred)
      ensures runtime.Device() == old(runtime.Device())
      ensures x != null && y != null <==> aOk && bOk
      ensures x != null && y != null ==> fresh(x) && fresh(y) && x != y && x[..] == av && y[..] == bv
    {
      HoldsDelivers(Table(), a.devicePtr, av);
      HoldsDelivers(Table(), b.devicePtr, bv);
      assert 0 < |av| && 0 < |bv|;
      hide Holds, Delivers, Runtime.Valid, Runtime.State, Records, Context.Ready;
      y := null;
      x := Fetch(a, aOk);
      if x != null {
        y := Fetch(b, bOk);
      }
    }

    // The loops, on host buffers; the device is not touched.
    method Compute(ar: Arith, x: array<Byte>, y: array<Byte>, m: nat, k: nat, n: nat, es: nat)
      returns (fault: bool, out: array<Byte>)
      requires Ready() && Arithmetic(ar, es) && 0 < es
      ensures Ready() && runtime.State() == old(runtime.State()) && out !in Stores(runtime.gpu.table)
      ensures runtime.Device() == old(runtime.Device()) && Table() == old(Table())
      ensures fresh(out) && (fault <==> !InBounds(m, k, n, x.Length, y.Length, es))
      ensures !fault ==> IsProduct(ar, x[..], y[..], out[..], m, k, n, es)
    {
      hide Arithmetic, IsProduct, InBounds;
      fault, out := Multiply(ar, x, y, m, k, n, es);
      NoStoreChanged(runtime.gpu.table);
    }

    // What cbpy_matmul needs to stay inside its buffers.
    predicate ProductFits(a: Handle, b: Handle) {
      InBounds(a.Dim(0), a.Dim(1), b.Dim(1), a.size, b.size, a.dtype.Size())
    }

    // The bytes of the buffer it asks calloc for.
    function OutputBytes(a: Handle, b: Handle): nat { OutputSize(a.Dim(0), b.Dim(1), a.dtype.Size()) }

    // Operands with the elements that their shapes ask for, and a count that does not wrap, are enough.
    lemma FitsSuffice(a: Handle, b: Handle)
      requires Compatible(a, b) && Fits(a) && Fits(b) && a.Dim(0) * b.Dim(1) < WORD
      ensures ProductFits(a, b)
    {
    }

    lemma ProductExact(a: Handle, b: Handle)
      requires ProductFits(a, b)
      ensures OutputBytes(a, b) == ProductSize(a, b)
    {
      OutputExact(a.Dim(0), a.Dim(1), b.Dim(1), a.size, b.size, a.dtype.Size());
      hide Wrap;
    }

    lemma SizeOf(h: Handle)
      ensures 0 < h.dtype.Size()
    {
    }

    lemma ProductLength(ar: Arith, a: seq<Byte>, b: seq<Byte>, c: seq<Byte>, m: nat, k: nat, n: nat, es: nat)
      requires IsProduct(ar, a, b, c, m, k, n, es)
      ensures |c| == m * n * es
    {
    }

    // The product on the host, if both operands could be fetched.
    method ProductOnHost(a: Handle, b: Handle, ghost av: seq<Byte>, ghost bv: seq<Byte>, ar: Arith, aOk: bool, bOk: bool)
      returns (fault: bool, out: array?<Byte>)
      requires Ready() && OnDevice(a, av) && OnDevice(b, bv) && Arithmetic(ar, a.dtype.Size())
      modifies runtime`lastError, runtime.gpu
      ensures Ready() && runtime.gpu.table == old(runtime.gpu.table) && Table() == old(Table())
      ensures runtime.State().0 == old(runtime.State()).0.(transferred := runtime.State().0.transferred)
      ensures runtime.Device() == old(runtime.Device())
      ensures fault <==> aOk && bOk && !ProductFits(a, b)
      ensures out != null <==> aOk && bOk && !fault
      ensures out != null ==>
        && fresh(out) && out !in Stores(runtime.gpu.table) && out.Length == ProductSize(a, b)
        && IsProduct(ar, av, bv, out[..], a.Dim(0), a.Dim(1), b.Dim(1), a.dtype.Size())
    {
      hide IsProduct, Arithmetic, InBounds, Holds, Runtime.Valid, Runtime.State, Records, Context.Ready, DType.Size;
      fault, out := false, null;
      SizeOf(a);
      var x, y := FetchBoth(a, b, av, bv, aOk, bOk);
      if x != null && y != null {
        assert x.Length == |x[..]| && y.Length == |y[..]|;
        fault, out := Compute(ar, x, y, a.Dim(0), a.Dim(1), b.Dim(1), a.dtype.Size());
        if fault {
          out := null;
        } else {
          ProductLength(ar, av, bv, out[..], a.Dim(0), a.Dim(1), b.Dim(1), a.dtype.Size());
        }
      }
    }

    // copy_result_to_device: an upload of a whole buffer, not yet synchronised.
    method ResultToDevice(out: array<Byte>, elemCount: nat, dtype: DType, shape: seq<nat>, handleOk: bool, storeOk: bool, recordOk: bool,
                          ghost keep: set<object>)
      returns (h: Handle?)
      requires keep !! runtime.Device()
      requires Valid() && TotalSize(elemCount, dtype) <= out.Length <= WORD - DEVICE_PAGE && out !in Stores(runtime.gpu.table)
      modifies this`totalAllocs, this`currentUsage, this`peakUsage, this`live, runtime`lastError, runtime.Device()
      ensures Valid() && Preserved(old(Table()), Table()) && (h == null ==> Table() == old(Table()))
      ensures keep !! runtime.Device() && fresh(runtime.Device() - old(runtime.Device())) && initialized == old(initialized)
      ensures h != null <==>
        && initialized && 0 < elemCount && 0 < TotalSize(elemCount, dtype) && 1 <= |shape| <= 8 && handleOk && storeOk && recordOk
        && AllocCheck(old(runtime.State()).0, TotalSize(elemCount, dtype), VideoMem) == Success
      ensures h != null ==>
        && fresh(h) && h.elemCount == elemCount && h.size == TotalSize(elemCount, dtype) && h.dtype == dtype && h.shape == shape
        && !h.synced && OnDevice(h, old(out[..TotalSize(elemCount, dtype)])) && Spent(old(runtime.State()).0, runtime.State().0, h.size)
      ensures live == if h != null then [h] + old(live) else old(live)
      ensures Counters() == if h != null then Grown(old(Counters()), h.size) else old(Counters())
    {
      hide *;
      Parts();
      OutsideDevice(out);
      ghost var bytes := out[..TotalSize(elemCount, dtype)];
      h := ToDevice(out, elemCount, dtype, shape, handleOk, storeOk, recordOk);
      if h != null {
        assert out[..h.size] == bytes;
        IsOnDevice(h, bytes);
        Parts();
        Unsynced(h, bytes);
        Whole();
      }
    }

    lemma IsOnDevice(h: Handle, data: seq<Byte>)
      requires h.devicePtr != 0 && h.size == |data| && Holds(Table(), h.devicePtr, data)
      ensures OnDevice(h, data)
    {
    }

    lemma OutsideDevice(out: array<Byte>)
      requires Ready() && out !in Stores(runtime.gpu.table)
      ensures out !in runtime.Device()
    {
    }

    method Unsynced(h: Handle, ghost data: seq<Byte>)
      requires Ready() && OnDevice(h, data)
      modifies h`synced
      ensures Ready() && runtime.State() == old(runtime.State()) && Table() == old(Table()) && OnDevice(h, data) && !h.synced
    {
      h.synced := false;
      NoStoreChanged(runtime.gpu.table);
    }

    // Bytes of the product.
    function ProductSize(a: Handle, b: Handle): nat { a.Dim(0) * b.Dim(1) * a.dtype.Size() }

    lemma Dimensions(a: Handle, b: Handle)
      requires Compatible(a, b) && ProductSize(a, b) <= WORD - DEVICE_PAGE
      ensures ProductSize(a, b) == TotalSize(a.Dim(0) * b.Dim(1), a.dtype)
      ensures 0 < ProductSize(a, b) <==> 0 < a.Dim(0) * b.Dim(1)
    {
      WrapSmall(ProductSize(a, b));
    }

    // Whether cbpy_matmul gets as far as computing.
    predicate Multipliable(a: Handle?, b: Handle?)
      reads a, b
    {
      Usable(a) && Usable(b) && Compatible(a, b)
    }

    /** cbpy_matmul: the result holds the product of what the operands hold, and everything that could
        be read before, the operands included, reads the same.  The loops leave a buffer, which is a fault,
        exactly when the sizes do not fit. */
    method MatMul(a: Handle?, b: Handle?, ghost av: seq<Byte>, ghost bv: seq<Byte>, ar: Arith,
                  outOk: bool, aOk: bool, bOk: bool, handleOk: bool, storeOk: bool, recordOk: bool, ghost keep: set<object>)
      returns (c: Handle?, fault: bool, ghost cv: seq<Byte>)
      requires Valid() && Operand(a, av) && Operand(b, bv) && keep !! runtime.Device()
      requires Multipliable(a, b) ==> Arithmetic(ar, a.dtype.Size())
      requires Multipliable(a, b) && outOk ==> OutputBytes(a, b) <= WORD - DEVICE_PAGE
      modifies this`totalAllocs, this`currentUsage, this`peakUsage, this`live, runtime`lastError, runtime.Device()
      ensures Valid() && Preserved(old(Table()), Table()) && Operand(a, av) && Operand(b, bv)
      ensures keep !! runtime.Device() && fresh(runtime.Device() - old(runtime.Device())) && initialized == old(initialized)
      ensures var fit :=
          && a != null && b != null && old(a.devicePtr) != 0 && old(b.devicePtr) != 0 && a.size != 0 && b.size != 0
          && |a.shape| == 2 && |b.shape| == 2 && a.shape[1] == b.shape[0]
          && a.dtype == b.dtype && (a.dtype == Float32 || a.dtype == Float64);
        && (!fit || !outOk ==> c == null && !fault && runtime.State() == old(runtime.State()))
        && (fault <==> fit && outOk && aOk && bOk
                       && !InBounds(a.shape[0], a.shape[1], b.shape[1], a.size, b.size, a.dtype.Size()))
        && (c != null <==> fit && outOk && aOk && bOk
                           && InBounds(a.shape[0], a.shape[1], b.shape[1], a.size, b.size, a.dtype.Size())
                           && 0 < ProductSize(a, b) && initialized && handleOk && storeOk && recordOk
                           && AllocCheck(old(runtime.State()).0, ProductSize(a, b), VideoMem) == Success)
      ensures c == null ==> Table() == old(Table())
      ensures c != null ==>
        && fresh(c) && c.shape == [a.shape[0], b.shape[1]] && c.dtype == a.dtype && !c.synced
        && c.elemCount == (a.shape[0] as int) * b.shape[1] && c.size == ProductSize(a, b) && Sized(c) && Fits(c)
        && OnDevice(c, cv) && Spent(old(runtime.State()).0, runtime.State().0, c.size)
        && IsProduct(ar, av, bv, cv, a.shape[0], a.shape[1], b.shape[1], a.dtype.Size())
      ensures live == if c != null then [c] + old(live) else old(live)
      ensures Counters() == if c != null then Grown(old(Counters()), c.size) else old(Counters())
    {
      hide *;
      SamePreserved(Table());
      Used(a, b, av, bv);
      MultipliableIs(a, b);
      c, fault, cv := null, false, [];
      if Multipliable(a, b) && outOk {
        c, fault, cv := MultiplyArrays(a, b, av, bv, ar, aOk, bOk, handleOk, storeOk, recordOk, keep);
        StillOperand(a, av);
        StillOperand(b, bv);
        if c != null {
          ProductParts(a, b, c);
        }
      }
    }

    // The checks of cbpy_matmul, and what it needs of the sizes, on the handles' own fields.
    lemma MultipliableIs(a: Handle?, b: Handle?)
      ensures Multipliable(a, b) <==>
        && a != null && b != null && a.devicePtr != 0 && b.devicePtr != 0 && a.size != 0 && b.size != 0
        && |a.shape| == 2 && |b.shape| == 2 && a.shape[1] == b.shape[0]
        && a.dtype == b.dtype && (a.dtype == Float32 || a.dtype == Float64)
      ensures Multipliable(a, b) ==>
        && a.Dim(0) == a.shape[0] && a.Dim(1) == a.shape[1] && b.Dim(1) == b.shape[1]
        && (ProductFits(a, b) <==> InBounds(a.shape[0], a.shape[1], b.shape[1], a.size, b.size, a.dtype.Size()))
        && ProductSize(a, b) == a.shape[0] * b.shape[1] * a.dtype.Size()
    {
      hide InBounds;
    }

    lemma ProductParts(a: Handle, b: Handle, c: Handle)
      requires Product(a, b, c, ProductSize(a, b))
      ensures c.shape == [a.Dim(0), b.Dim(1)] && c.dtype == a.dtype && c.elemCount == a.Dim(0) * b.Dim(1)
      ensures c.size == ProductSize(a, b) && Sized(c) && Fits(c)
    {
    }

    lemma Used(a: Handle?, b: Handle?, av: seq<Byte>, bv: seq<Byte>)
      requires Operand(a, av) && Operand(b, bv)
      ensures Multipliable(a, b) ==> a != null && b != null && Compatible(a, b) && OnDevice(a, av) && OnDevice(b, bv)
      ensures Combinable(a, b) ==> a != null && b != null && Alike(a, b) && OnDevice(a, av) && OnDevice(b, bv)
    {
    }

    lemma StillOperand(a: Handle?, av: seq<Byte>)
      requires a != null ==> OnDevice(a, av)
      ensures Operand(a, av)
    {
    }

    // The product of two arrays that the checks let through, with a buffer for it.
    method MultiplyArrays(a: Handle, b: Handle, ghost av: seq<Byte>, ghost bv: seq<Byte>, ar: Arith,
                          aOk: bool, bOk: bool, handleOk: bool, storeOk: bool, recordOk: bool, ghost keep: set<object>)
      returns (c: Handle?, fault: bool, ghost cv: seq<Byte>)
      requires Valid() && OnDevice(a, av) && OnDevice(b, bv) && Arithmetic(ar, a.dtype.Size())
      requires keep !! runtime.Device() && Compatible(a, b) && OutputBytes(a, b) <= WORD - DEVICE_PAGE
      modifies this`totalAllocs, this`currentUsage, this`peakUsage, this`live, runtime`lastError, runtime.Device()
      ensures Valid() && Preserved(old(Table()), Table()) && OnDevice(a, av) && OnDevice(b, bv) && (c == null ==> Table() == old(Table()))
      ensures keep !! runtime.Device() && fresh(runtime.Device() - old(runtime.Device())) && initialized == old(initialized)
      ensures fault <==> aOk && bOk && !ProductFits(a, b)
      ensures c != null <==>
        && ProductFits(a, b) && 0 < ProductSize(a, b) && aOk && bOk && initialized && handleOk && storeOk && recordOk
        && AllocCheck(old(runtime.State()).0, ProductSize(a, b), VideoMem) == Success
      ensures c != null ==>
        && Product(a, b, c, ProductSize(a, b)) && fresh(c)
        && !c.synced && OnDevice(c, cv) && Spent(old(runtime.State()).0, runtime.State().0, c.size)
        && IsProduct(ar, av, bv, cv, a.Dim(0), a.Dim(1), b.Dim(1), a.dtype.Size())
      ensures live == if c != null then [c] + old(live) else old(live)
      ensures Counters() == if c != null then Grown(old(Counters()), c.size) else old(Counters())
    {
      hide Runtime.Valid, Runtime.State, Records, Context.Ready, Context.Counted, IsProduct, ProductFits, Arithmetic, Preserved, Holds, AllocCheck, Spent;
      SizesPositive(a, av);
      SizesPositive(b, bv);
      SamePreserved(Table());
      Outside(a);
      Parts();
      ghost var state, before := runtime.State().0, Table();
      var out;
      fault, out := ProductOnHost(a, b, av, bv, ar, aOk, bOk);
      hide *;
      if ProductFits(a, b) {
        ProductExact(a, b);
      }
      Whole();
      StillOnDevice(before, a, av);
      StillOnDevice(before, b, bv);
      TrafficOnly(state, runtime.State().0, ProductSize(a, b));
      c, cv := ProductToDevice(a, b, av, bv, out, handleOk, storeOk, recordOk, keep);
    }

    // The product, if there is one, becomes an array of its own.
    method ProductToDevice(a: Handle, b: Handle, ghost av: seq<Byte>, ghost bv: seq<Byte>, out: array?<Byte>,
                           handleOk: bool, storeOk: bool, recordOk: bool, ghost keep: set<object>)
      returns (c: Handle?, ghost cv: seq<Byte>)
      requires keep !! runtime.Device()
      requires Valid() && OnDevice(a, av) && OnDevice(b, bv) && Compatible(a, b)
      requires out != null ==> out.Length == ProductSize(a, b) <= WORD - DEVICE_PAGE && out !in Stores(runtime.gpu.table)
      modifies this`totalAllocs, this`currentUsage, this`peakUsage, this`live, runtime`lastError, runtime.Device()
      ensures Valid() && Preserved(old(Table()), Table()) && OnDevice(a, av) && OnDevice(b, bv) && (c == null ==> Table() == old(Table()))
      ensures keep !! runtime.Device() && fresh(runtime.Device() - old(runtime.Device())) && initialized == old(initialized)
      ensures c != null <==>
        && out != null && 0 < ProductSize(a, b) && initialized && handleOk && storeOk && recordOk
        && AllocCheck(old(runtime.State()).0, ProductSize(a, b), VideoMem) == Success
      ensures c != null ==>
        && Product(a, b, c, ProductSize(a, b)) && fresh(c)
        && !c.synced && OnDevice(c, cv) && cv == old(out[..]) && Spent(old(runtime.State()).0, runtime.State().0, c.size)
      ensures live == if c != null then [c] + old(live) else old(live)
      ensures Counters() == if c != null then Grown(old(Counters()), c.size) else old(Counters())
    {
      hide *;
      Parts();
      SizesPositive(a, av);
      SizesPositive(b, bv);
      Outside(a);
      Outside(b);
      SamePreserved(Table());
      c, cv := null, [];
      if out != null {
        Dimensions(a, b);
        OutsideDevice(out);
        cv := out[..];
        assert cv == out[..out.Length];
        ghost var before := Table();
        c := ResultToDevice(out, a.Dim(0) * b.Dim(1), a.dtype, [a.Dim(0), b.Dim(1)], handleOk, storeOk, recordOk, keep);
        StillOnDevice(before, a, av);
        StillOnDevice(before, b, bv);
        if c != null {
          ResultShaped(a, b, c);
        }
      }
    }

    // The shape and size of a product.
    ghost predicate Product(a: Handle, b: Handle, c: Handle, size: nat) {
      && c.shape == [a.Dim(0), b.Dim(1)] && c.dtype == a.dtype && c.elemCount == a.Dim(0) * b.Dim(1)
      && c.size == size && Sized(c) && Fits(c)
    }

    lemma Outside(h: Handle)
      ensures h !in runtime.Device() && runtime.gpu in runtime.Device()
    {
    }

    lemma StillOnDevice(before: seq<Record>, h: Handle, data: seq<Byte>)
      requires h.devicePtr != 0 && h.size == |data| && Holds(before, h.devicePtr, data) && Preserved(before, Table())
      ensures OnDevice(h, data)
    {
      HoldsKept(before, Table(), h.devicePtr, data);
      hide Holds, Preserved;
    }

    lemma ResultShaped(a: Handle, b: Handle, c: Handle)
      requires c.shape == [a.Dim(0), b.Dim(1)] && c.dtype == a.dtype && c.elemCount == a.Dim(0) * b.Dim(1)
      requires c.size == ProductSize(a, b) <= WORD - DEVICE_PAGE
      ensures Product(a, b, c, ProductSize(a, b))
    {
    }

    // Reading does not change what an allocation sees.
    lemma TrafficOnly(g: Gpu, g2: Gpu, size: nat)
      requires g2 == g.(transferred := g2.transferred)
      ensures AllocCheck(g2, size, VideoMem) == AllocCheck(g, size, VideoMem)
      ensures forall g3, n :: Spent(g2, g3, n) ==> Spent(g, g3, n)
    {
    }

    lemma SizesPositive(h: Handle, data: seq<Byte>)
      requires OnDevice(h, data)
      ensures 0 < h.size == |data| && h.devicePtr != 0 && Holds(Table(), h.devicePtr, data)
    {
      hide Covered, Read, Runtime.State;
    }

    // ---------------------------------------------------------------- element-wise operations

    // What binary_host_op checks before it fetches the operands: equal counts, types and shapes.
    predicate Alike(a: Handle, b: Handle) {
      a.elemCount == b.elemCount && a.dtype == b.dtype && a.shape == b.shape
    }

    // The loop, on host buffers; the device is not touched.
    method Combine(f: (seq<Byte>, seq<Byte>) -> seq<Byte>, x: array<Byte>, y: array<Byte>, size: nat, count: nat, es: nat)
      returns (fault: bool, out: array<Byte>)
      requires Ready() && Width(f, es)
      ensures Ready() && runtime.State() == old(runtime.State()) && out !in Stores(runtime.gpu.table)
      ensures runtime.Device() == old(runtime.Device()) && Table() == old(Table())
      ensures fresh(out) && out.Length == size
      ensures fault <==> !(count * es <= x.Length && count * es <= y.Length && count * es <= size)
      ensures !fault ==> IsZip(f, x[..], y[..], out[..count * es], count, es)
    {
      hide Width, IsZip;
      fault, out := Zip(f, x, y, size, count, es);
      NoStoreChanged(runtime.gpu.table);
    }

    // Bytes of the elements.
    function ZipSize(h: Handle): nat { h.elemCount * h.dtype.Size() }

    // What binary_host_op needs to stay inside its buffers, the output being as large as the first operand.
    predicate ZipFits(a: Handle, b: Handle) {
      ZipSize(a) <= a.size && ZipSize(a) <= b.size
    }

    // An array made by to_device: its size is that of its elements.
    predicate Sized(h: Handle) {
      h.size == h.elemCount * h.dtype.Size() && 1 <= |h.shape| <= 8 && h.size <= WORD - DEVICE_PAGE
    }

    lemma ZipFacts(a: Handle)
      requires ZipSize(a) <= a.size <= WORD - DEVICE_PAGE
      ensures TotalSize(a.elemCount, a.dtype) == ZipSize(a) == a.elemCount * a.dtype.Size()
      ensures 0 < ZipSize(a) <==> 0 < a.elemCount
    {
      WrapSmall(ZipSize(a));
      hide Wrap;
    }

    // Whether binary_host_op gets as far as computing.
    predicate Combinable(a: Handle?, b: Handle?)
      reads a, b
    {
      Usable(a) && Usable(b) && Alike(a, b)
    }

    /** cbpy_add and cbpy_multiply: the result holds f of the operands' elements, place by place, and
        everything that could be read before reads the same.  The loop leaves a buffer, which is a fault,
        exactly when an operand has fewer bytes than its elements take. */
    method BinaryOp(a: Handle?, b: Handle?, ghost av: seq<Byte>, ghost bv: seq<Byte>, f: (seq<Byte>, seq<Byte>) -> seq<Byte>,
                    outOk: bool, aOk: bool, bOk: bool, handleOk: bool, storeOk: bool, recordOk: bool)
      returns (c: Handle?, fault: bool, ghost cv: seq<Byte>)
      requires Valid() && Operand(a, av) && Operand(b, bv)
      requires Combinable(a, b) ==> Width(f, a.dtype.Size())
      requires Combinable(a, b) && outOk ==> a.size <= WORD - DEVICE_PAGE
      modifies this`totalAllocs, this`currentUsage, this`peakUsage, this`live, runtime`lastError, runtime.Device()
      ensures Valid() && Preserved(old(Table()), Table()) && Operand(a, av) && Operand(b, bv)
      ensures initialized == old(initialized)
      ensures var fit :=
          && a != null && b != null && old(a.devicePtr) != 0 && old(b.devicePtr) != 0 && a.size != 0 && b.size != 0
          && a.elemCount == b.elemCount && a.dtype == b.dtype && a.shape == b.shape;
        && (!fit || !outOk ==> c == null && !fault && runtime.State() == old(runtime.State()))
        && (fault <==> fit && a.dtype != Float16 && outOk && aOk && bOk
                       && !(a.elemCount * a.dtype.Size() <= a.size && a.elemCount * a.dtype.Size() <= b.size))
        && (c != null <==> fit && a.dtype != Float16 && outOk && aOk && bOk
                           && a.elemCount * a.dtype.Size() <= a.size && a.elemCount * a.dtype.Size() <= b.size
                           && 0 < a.elemCount && 1 <= |a.shape| <= 8 && initialized && handleOk && storeOk && recordOk
                           && AllocCheck(old(runtime.State()).0, ZipSize(a), VideoMem) == Success)
      ensures c == null ==> Table() == old(Table())
      ensures c != null ==>
        && fresh(c) && c.shape == a.shape && c.dtype == a.dtype && c.elemCount == a.elemCount && !c.synced
        && c.size == a.elemCount * a.dtype.Size() && Sized(c) && OnDevice(c, cv)
        && Spent(old(runtime.State()).0, runtime.State().0, c.size)
        && IsZip(f, av, bv, cv, a.elemCount, a.dtype.Size())
      ensures live == if c != null then [c] + old(live) else old(live)
      ensures Counters() == if c != null then Grown(old(Counters()), c.size) else old(Counters())
    {
      hide *;
      SamePreserved(Table());
      Used(a, b, av, bv);
      CombinableIs(a, b);
      c, fault, cv := null, false, [];
      if Combinable(a, b) && outOk {
        FitsIs(a, b);
        c, fault, cv := CombineArrays(a, b, av, bv, f, aOk, bOk, handleOk, storeOk, recordOk);
        StillOperand(a, av);
        StillOperand(b, bv);
      }
    }

    // The checks of binary_host_op on the handles' own fields.
    lemma CombinableIs(a: Handle?, b: Handle?)
      ensures Combinable(a, b) <==>
        && a != null && b != null && a.devicePtr != 0 && b.devicePtr != 0 && a.size != 0 && b.size != 0
        && a.elemCount == b.elemCount && a.dtype == b.dtype && a.shape == b.shape
    {
    }

    // Element by element, for two arrays that the checks let through, with a buffer for the result.
    method CombineArrays(a: Handle, b: Handle, ghost av: seq<Byte>, ghost bv: seq<Byte>, f: (seq<Byte>, seq<Byte>) -> seq<Byte>,
                         aOk: bool, bOk: bool, handleOk: bool, storeOk: bool, recordOk: bool)
      returns (c: Handle?, fault: bool, ghost cv: seq<Byte>)
      requires Valid() && OnDevice(a, av) && OnDevice(b, bv) && Alike(a, b) && Width(f, a.dtype.Size()) && a.size <= WORD - DEVICE_PAGE
      modifies this`totalAllocs, this`currentUsage, this`peakUsage, this`live, runtime`lastError, runtime.Device()
      ensures Valid() && Preserved(old(Table()), Table()) && OnDevice(a, av) && OnDevice(b, bv)
      ensures initialized == old(initialized)
      ensures fault <==> a.dtype != Float16 && aOk && bOk && !ZipFits(a, b)
      ensures c != null <==>
        && a.dtype != Float16 && aOk && bOk && ZipFits(a, b) && 0 < a.elemCount && 1 <= |a.shape| <= 8
        && initialized && handleOk && storeOk && recordOk
        && AllocCheck(old(runtime.State()).0, ZipSize(a), VideoMem) == Success
      ensures c == null ==> Table() == old(Table())
      ensures c != null ==>
        && fresh(c) && c.shape == a.shape && c.dtype == a.dtype && c.elemCount == a.elemCount && c.size == ZipSize(a) && !c.synced
        && Sized(c) && OnDevice(c, cv) && Spent(old(runtime.State()).0, runtime.State().0, c.size)
        && IsZip(f, av, bv, cv, a.elemCount, a.dtype.Size())
      ensures live == if c != null then [c] + old(live) else old(live)
      ensures Counters() == if c != null then Grown(old(Counters()), c.size) else old(Counters())
    {
      hide *;
      Outside(a);
      Outside(b);
      SizesPositive(a, av);
      SizesPositive(b, bv);
      SamePreserved(Table());
      Parts();
      FitsIs(a, b);
      c, fault, cv := null, false, [];
      ghost var state, before := runtime.State().0, Table();
      var x, y := FetchBoth(a, b, av, bv, aOk, bOk);
      StillOnDevice(before, a, av);
      StillOnDevice(before, b, bv);
      Whole();
      TrafficOnly(state, runtime.State().0, ZipSize(a));
      if x != null && y != null && a.dtype != Float16 {
        assert x.Length == |x[..]| && y.Length == |y[..]|;
        var out;
        fault, out := Combine(f, x, y, a.size, a.elemCount, a.dtype.Size());
        Whole();
        OutsideDevice(out);
        StillOnDevice(before, a, av);
        StillOnDevice(before, b, bv);
        if !fault {
          ZipFacts(a);
          cv := out[..ZipSize(a)];
          c := ResultToDevice(out, a.elemCount, a.dtype, a.shape, handleOk, storeOk, recordOk, {});
          StillOnDevice(before, a, av);
          StillOnDevice(before, b, bv);
          if c != null {
            SizedLike(a, c);
          }
        }
      }
    }

    lemma FitsIs(a: Handle, b: Handle)
      ensures ZipFits(a, b) <==> ZipSize(a) <= a.size && ZipSize(a) <= b.size
      ensures ZipSize(a) == a.elemCount * a.dtype.Size()
    {
    }

    lemma SizedLike(a: Handle, c: Handle)
      requires c.size == ZipSize(a) <= a.size <= WORD - DEVICE_PAGE && c.elemCount == a.elemCount && c.dtype == a.dtype
      requires c.shape == a.shape && 1 <= |a.shape| <= 8
      ensures Sized(c)
    {
    }

    // ---------------------------------------------------------------- end to end

    /** A result is an operand like any other: A * B + D on the device.  Each element of the result is the
        left-to-right sum of the product plus the element of D; where there is room the chain cannot fail;
        and A, B, D, the intermediate array and whatever else could be read are as they were. */
    method MultiplyThenAdd(a: Handle, b: Handle, d: Handle, ghost av: seq<Byte>, ghost bv: seq<Byte>, ghost dv: seq<Byte>, ar: Arith)
      returns (c: Handle?, e: Handle?, ghost cv: seq<Byte>, ghost ev: seq<Byte>)
      requires Valid() && OnDevice(a, av) && OnDevice(b, bv) && OnDevice(d, dv) && Arithmetic(ar, a.dtype.Size())
      requires Multipliable(a, b) && ProductFits(a, b) && 0 < ProductSize(a, b) <= WORD - DEVICE_PAGE
      requires d.shape == [a.Dim(0), b.Dim(1)] && d.elemCount == a.Dim(0) * b.Dim(1) && d.dtype == a.dtype && Sized(d)
      modifies this`totalAllocs, this`currentUsage, this`peakUsage, this`live, runtime`lastError, runtime.Device()
      ensures Valid() && Preserved(old(Table()), Table())
      ensures OnDevice(a, av) && OnDevice(b, bv) && OnDevice(d, dv) && (c != null ==> OnDevice(c, cv))
      ensures initialized && RoomForTwo(old(runtime.State()).0, ProductSize(a, b)) ==> e != null
      ensures e != null ==>
        && c != null && OnDevice(e, ev)
        && IsProductPlus(ar, av, bv, dv, ev, a.Dim(0), a.Dim(1), b.Dim(1), a.dtype.Size())
      ensures live == (if e != null then [e] else []) + (if c != null then [c] else []) + old(live)
    {
      hide *;
      SizesPositive(a, av);
      SizesPositive(b, bv);
      SizesPositive(d, dv);
      Outside(a);
      Outside(b);
      Outside(d);
      StillOperand(a, av);
      StillOperand(b, bv);
      ghost var g, before := runtime.State().0, Table();
      ProductExact(a, b);
      MultipliableIs(a, b);
      var fault;
      c, fault, cv := MatMul(a, b, av, bv, ar, true, true, true, true, true, true, {});
      TwoFit(g, runtime.State().0, ProductSize(a, b));
      StillOnDevice(before, a, av);
      StillOnDevice(before, b, bv);
      StillOnDevice(before, d, dv);
      e, ev := null, [];
      Used(a, b, av, bv);
      if c != null {
        ResultShaped(a, b, c);
        e, ev := AddTo(a, b, c, d, av, bv, cv, dv, ar, before);
      }
    }

    // The second half: the product is on the device, and everything from before is.
    method AddTo(a: Handle, b: Handle, c: Handle, d: Handle,
                 ghost av: seq<Byte>, ghost bv: seq<Byte>, ghost cv: seq<Byte>, ghost dv: seq<Byte>, ar: Arith, ghost before: seq<Record>)
      returns (e: Handle?, ghost ev: seq<Byte>)
      requires Valid() && OnDevice(a, av) && OnDevice(b, bv) && OnDevice(c, cv) && OnDevice(d, dv) && Arithmetic(ar, a.dtype.Size())
      requires Product(a, b, c, ProductSize(a, b)) && IsProduct(ar, av, bv, cv, a.Dim(0), a.Dim(1), b.Dim(1), a.dtype.Size())
      requires d.shape == c.shape && d.elemCount == c.elemCount && d.dtype == c.dtype && Sized(d) && Compatible(a, b)
      requires Preserved(before, Table())
      modifies this`totalAllocs, this`currentUsage, this`peakUsage, this`live, runtime`lastError, runtime.Device()
      ensures Valid() && Preserved(before, Table())
      ensures OnDevice(a, av) && OnDevice(b, bv) && OnDevice(c, cv) && OnDevice(d, dv)
      ensures initialized == old(initialized)
      ensures initialized && AllocCheck(old(runtime.State()).0, ProductSize(a, b), VideoMem) == Success ==> e != null
      ensures e != null ==>
        OnDevice(e, ev) && IsProductPlus(ar, av, bv, dv, ev, a.Dim(0), a.Dim(1), b.Dim(1), a.dtype.Size())
      ensures live == if e != null then [e] + old(live) else old(live)
    {
      hide *;
      SizesPositive(a, av);
      SizesPositive(b, bv);
      SizesPositive(c, cv);
      SizesPositive(d, dv);
      Outside(a);
      Outside(b);
      Outside(c);
      Outside(d);
      StillOperand(c, cv);
      StillOperand(d, dv);
      ProductParts(a, b, c);
      Summands(a, b, c, d, ar);
      CombinableIs(c, d);
      FitsIs(c, d);
      ghost var middle := Table();
      var fault;
      e, fault, ev := BinaryOp(c, d, cv, dv, ar.add, true, true, true, true, true, true);
      PreservedTwice(before, middle, Table());
      StillOnDevice(middle, a, av);
      StillOnDevice(middle, b, bv);
      StillOnDevice(middle, c, cv);
      StillOnDevice(middle, d, dv);
      if e != null {
        ProductThenZip(ar, av, bv, cv, dv, ev, a.Dim(0), a.Dim(1), b.Dim(1), a.dtype.Size());
      }
    }

    lemma Summands(a: Handle, b: Handle, c: Handle, d: Handle, ar: Arith)
      requires Compatible(a, b) && Arithmetic(ar, a.dtype.Size()) && Product(a, b, c, ProductSize(a, b)) && Sized(d)
      requires c.devicePtr != 0 && d.devicePtr != 0 && c.size != 0 && d.size != 0
      requires d.shape == c.shape && d.elemCount == c.elemCount && d.dtype == c.dtype
      ensures Combinable(c, d) && Width(ar.add, c.dtype.Size()) && c.dtype != Float16
      ensures ZipFits(c, d) && ZipSize(c) == ProductSize(a, b)
      ensures 0 < c.elemCount && 1 <= |c.shape| <= 8 && c.size <= WORD - DEVICE_PAGE
    {
    }

    // The first operand.
    method UploadFirst(x: array<Byte>, y: array<Byte>, m: nat, k: nat, dtype: DType, ghost keep: set<object>) returns (a: Handle?)
      requires keep !! runtime.Device() && x in keep && y in keep
      requires Valid() && 0 < m * k && 0 < x.Length == TotalSize(m * k, dtype) <= WORD - DEVICE_PAGE
      modifies this`totalAllocs, this`currentUsage, this`peakUsage, this`live, runtime`lastError, runtime.Device()
      ensures Valid() && Preserved(old(Table()), Table())
      ensures keep !! runtime.Device() && fresh(runtime.Device() - old(runtime.Device()))
      ensures x[..] == old(x[..]) && y[..] == old(y[..])
      ensures initialized == old(initialized)
      ensures a != null <==> initialized && AllocCheck(old(runtime.State()).0, x.Length, VideoMem) == Success
      ensures a != null ==>
        && fresh(a) && a.dtype == dtype && a.shape == [m, k] && Spent(old(runtime.State()).0, runtime.State().0, x.Length)
        && a.size == x.Length && a.devicePtr != 0 && Holds(Table(), a.devicePtr, x[..])
    {
      hide *;
      ghost var xv := x[..];
      NoStore(x);
      a := ToDevice(x, m * k, dtype, [m, k], true, true, true);
      assert a != null ==> x[..a.size] == xv;
    }

    // Both operands on the device.
    method UploadBoth(x: array<Byte>, y: array<Byte>, m: nat, k: nat, n: nat, dtype: DType, ghost room: nat, ghost keep: set<object>)
      returns (a: Handle?, b: Handle?)
      requires keep !! runtime.Device() && x in keep && y in keep
      requires Valid() && 0 < m * k && 0 < k * n
      requires 0 < x.Length == TotalSize(m * k, dtype) <= WORD - DEVICE_PAGE && 0 < y.Length == TotalSize(k * n, dtype) <= WORD - DEVICE_PAGE
      modifies this`totalAllocs, this`currentUsage, this`peakUsage, this`live, runtime`lastError, runtime.Device()
      ensures Valid() && keep !! runtime.Device() && fresh(runtime.Device() - old(runtime.Device()))
      ensures x[..] == old(x[..]) && y[..] == old(y[..])
      ensures a != null ==> fresh(a) && a.dtype == dtype && a.shape == [m, k] && a.size == x.Length
      ensures b != null ==> a != null && fresh(b) && b.dtype == dtype && b.shape == [k, n] && b.size == y.Length && b != a
      ensures b != null ==> OnDevice(a, x[..]) && OnDevice(b, y[..])
      ensures old(initialized) && Room(old(runtime.State()).0, x.Length, y.Length, room) ==>
        b != null && initialized && AllocCheck(runtime.State().0, room, VideoMem) == Success
    {
      hide Runtime.Valid, Runtime.State, Records, Context.Valid, Preserved, Holds, AllocCheck, Spent, Room, TotalSize;
      ghost var xv, g := x[..], runtime.State().0;
      a := UploadFirst(x, y, m, k, dtype, keep);
      hide *;
      ghost var device, g1 := runtime.Device(), runtime.State().0;
      b := UploadSecond(a, xv, x, y, k, n, dtype, keep);
      RoomSuffices(g, g1, runtime.State().0, x.Length, y.Length, room);
      assert fresh(runtime.Device() - device);
      assert runtime.Device() - old(runtime.Device()) <= (runtime.Device() - device) + (device - old(runtime.Device()));
    }

    lemma NoStore(y: array<Byte>)
      ensures y !in runtime.Device() <==> y !in Stores(runtime.gpu.table)
    {
    }

    // The second operand, if the first is there.
    method UploadSecond(a: Handle?, ghost av: seq<Byte>, x: array<Byte>, y: array<Byte>, k: nat, n: nat, dtype: DType,
                        ghost keep: set<object>)
      returns (b: Handle?)
      requires keep !! runtime.Device() && x in keep && y in keep
      requires Valid() && 0 < k * n && 0 < y.Length == TotalSize(k * n, dtype) <= WORD - DEVICE_PAGE
      requires a != null ==> a.size == |av| && a.devicePtr != 0 && Holds(Table(), a.devicePtr, av)
      modifies this`totalAllocs, this`currentUsage, this`peakUsage, this`live, runtime`lastError, runtime.Device()
      ensures Valid() && Preserved(old(Table()), Table())
      ensures keep !! runtime.Device() && fresh(runtime.Device() - old(runtime.Device()))
      ensures x[..] == old(x[..]) && y[..] == old(y[..])
      ensures initialized == old(initialized)
      ensures b != null <==> a != null && initialized && AllocCheck(old(runtime.State()).0, y.Length, VideoMem) == Success
      ensures b != null ==>
        && fresh(b) && b.dtype == dtype && b.shape == [k, n] && b.size == y.Length
        && Spent(old(runtime.State()).0, runtime.State().0, y.Length)
      ensures b != null ==> OnDevice(a, av) && OnDevice(b, y[..])
    {
      hide *;
      SamePreserved(Table());
      if a == null {
        return null;
      }
      ghost var before := Table();
      Outside(a);
      ghost var yv := y[..];
      NoStore(y);
      b := ToDevice(y, k * n, dtype, [k, n], true, true, true);
      StillOnDevice(before, a, av);
      if b != null {
        assert y[..b.size] == yv;
        IsOnDevice(b, yv);
      }
    }

    /** Upload A and B, multiply, download: when nothing fails the host gets, at row * n + col, the
        left-to-right sum of A[row * k + i] * B[i * n + col], and both operands are still on the device. */
    method UploadMultiplyDownload(x: array<Byte>, y: array<Byte>, m: nat, k: nat, n: nat, dtype: DType, ar: Arith, out: array<Byte>)
      returns (ok: bool, a: Handle?, b: Handle?, c: Handle?)
      requires Valid() && (dtype == Float32 || dtype == Float64) && Arithmetic(ar, dtype.Size())
      requires 0 < m && 0 < k && 0 < n && x != y && out != x && out != y
      requires x.Length == m * k * dtype.Size() <= WORD - DEVICE_PAGE && y.Length == k * n * dtype.Size() <= WORD - DEVICE_PAGE
      requires out.Length == m * n * dtype.Size() <= WORD - DEVICE_PAGE
      requires x !in Stores(runtime.gpu.table) && y !in Stores(runtime.gpu.table) && out !in Stores(runtime.gpu.table)
      modifies this`totalAllocs, this`currentUsage, this`peakUsage, this`live, runtime`lastError, runtime.Device(), out
      ensures Valid() && x[..] == old(x[..]) && y[..] == old(y[..])
      ensures ok <==> a != null && b != null && c != null
      ensures old(initialized) && Room(old(runtime.State()).0, x.Length, y.Length, out.Length) ==> ok
      ensures ok ==>
        && IsProduct(ar, x[..], y[..], out[..], m, k, n, dtype.Size())
        && OnDevice(a, x[..]) && OnDevice(b, y[..]) && OnDevice(c, out[..])
    {
      hide *;
      Parts();
      ok, c := false, null;
      ghost var xv, yv := x[..], y[..];
      OutsideDevice(x);
      OutsideDevice(y);
      OutsideDevice(out);
      ghost var keep: set<object> := {x, y, out};
      Buffers(m, k, n, dtype, x, y);
      a, b := UploadBoth(x, y, m, k, n, dtype, out.Length, keep);
      if a != null && b != null {
        ghost var cv;
        Outside(a);
        SizesPositive(a, xv);
        SizesPositive(b, yv);
        Operands(a, b, m, k, n);
        c, cv := MultiplyUploaded(a, b, xv, yv, m, k, n, dtype.Size(), ar, keep);
        NoStore(out);
        if c != null {
          ProductLength(ar, xv, yv, cv, m, k, n, dtype.Size());
          DeliverResult(a, b, c, xv, yv, cv, out);
          ok := true;
        }
      }
    }

    // The product of two arrays of these shapes.
    method MultiplyUploaded(a: Handle, b: Handle, ghost av: seq<Byte>, ghost bv: seq<Byte>, m: nat, k: nat, n: nat, es: nat, ar: Arith,
                            ghost keep: set<object>)
      returns (c: Handle?, ghost cv: seq<Byte>)
      requires Valid() && OnDevice(a, av) && OnDevice(b, bv) && keep !! runtime.Device()
      requires a.dtype.Size() == es && Arithmetic(ar, es) && ProductFits(a, b) && Multipliable(a, b)
      requires 0 < ProductSize(a, b) <= WORD - DEVICE_PAGE && a.Dim(0) == m && a.Dim(1) == k && b.Dim(1) == n
      modifies this`totalAllocs, this`currentUsage, this`peakUsage, this`live, runtime`lastError, runtime.Device()
      ensures Valid() && Preserved(old(Table()), Table()) && OnDevice(a, av) && OnDevice(b, bv) && (c == null ==> Table() == old(Table()))
      ensures keep !! runtime.Device() && fresh(runtime.Device() - old(runtime.Device())) && initialized == old(initialized)
      ensures initialized && AllocCheck(old(runtime.State()).0, ProductSize(a, b), VideoMem) == Success ==> c != null
      ensures c != null ==> fresh(c) && OnDevice(c, cv) && IsProduct(ar, av, bv, cv, m, k, n, es)
    {
      hide *;
      SizesPositive(a, av);
      SizesPositive(b, bv);
      Outside(a);
      Outside(b);
      StillOperand(a, av);
      StillOperand(b, bv);
      ProductExact(a, b);
      MultipliableIs(a, b);
      var fault;
      c, fault, cv := MatMul(a, b, av, bv, ar, true, true, true, true, true, true, keep);
      OperandUsed(a, av);
      OperandUsed(b, bv);
    }

    lemma OperandUsed(h: Handle, data: seq<Byte>)
      requires Operand(h, data) && h.devicePtr != 0 && h.size != 0
      ensures OnDevice(h, data)
    {
    }

    // The last download: the buffer gets the bytes, every array stays.
    method DeliverResult(a: Handle, b: Handle, c: Handle, ghost av: seq<Byte>, ghost bv: seq<Byte>, ghost cv: seq<Byte>, out: array<Byte>)
      requires Valid() && OnDevice(a, av) && OnDevice(b, bv) && OnDevice(c, cv) && c != a && c != b
      requires out.Length == |cv| && out !in Stores(runtime.gpu.table)
      modifies runtime`lastError, runtime.gpu, out, c
      ensures Valid() && out[..] == cv && OnDevice(a, av) && OnDevice(b, bv) && OnDevice(c, cv)
    {
      hide *;
      SizesPositive(a, av);
      SizesPositive(b, bv);
      SizesPositive(c, cv);
      HoldsDelivers(Table(), c.devicePtr, cv);
      SamePreserved(Table());
      ghost var before := Table();
      var ok := FromDevice(c, out);
      assert out[..c.size] == out[..];
      StillOnDevice(before, a, av);
      StillOnDevice(before, b, bv);
      StillOnDevice(before, c, cv);
    }

    // The shapes fit, and the product is as large as the buffer for it.
    lemma Operands(a: Handle, b: Handle, m: nat, k: nat, n: nat)
      requires a.shape == [m, k] && b.shape == [k, n] && a.dtype == b.dtype && (a.dtype == Float32 || a.dtype == Float64)
      requires a.size == m * k * a.dtype.Size() && b.size == k * n * b.dtype.Size()
      requires 0 < m && 0 < n && a.devicePtr != 0 && a.size != 0 && b.devicePtr != 0 && b.size != 0
      requires m * n * a.dtype.Size() <= WORD - DEVICE_PAGE
      ensures Multipliable(a, b) && 0 < ProductSize(a, b)
      ensures ProductFits(a, b) && Compatible(a, b) && ProductSize(a, b) == m * n * a.dtype.Size()
      ensures a.Dim(0) == m && a.Dim(1) == k && b.Dim(1) == n
    {
      ProductsPositive(m, n, a.dtype.Size());
      LessByFactor(WORD, m * n, a.dtype.Size());
    }

    // The byte counts of the three matrices are exact.
    lemma Buffers(m: nat, k: nat, n: nat, dtype: DType, x: array<Byte>, y: array<Byte>)
      requires 0 < m && 0 < k && 0 < n
      requires x.Length == m * k * dtype.Size() <= WORD - DEVICE_PAGE && y.Length == k * n * dtype.Size() <= WORD - DEVICE_PAGE
      ensures TotalSize(m * k, dtype) == x.Length && TotalSize(k * n, dtype) == y.Length
      ensures 0 < m * k && 0 < k * n && 0 < m * n && 0 < x.Length && 0 < y.Length
    {
      WrapSmall(x.Length);
      WrapSmall(y.Length);
      ProductsPositive(m, k, dtype.Size());
      ProductsPositive(k, n, dtype.Size());
      hide DType.Size;
      ProductsPositive(m, k, 1);
      ProductsPositive(k, n, 1);
      ProductsPositive(m, n, 1);
    }
  }

  lemma ProductsPositive(m: nat, n: nat, es: nat)
    requires 0 < m && 0 < n && 0 < es
    ensures 0 < m * n && 0 < m * n * es
  {
  }
}
