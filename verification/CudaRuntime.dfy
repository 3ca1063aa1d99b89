/**
 The runtime calls of cuda_runtime.c over one current GPU: each is one step of the device model, or an
 error that leaves the device alone.  Host pointers handed out by the runtime are tracked in a table of
 fixed size, and cudaFree looks there first.
 */
module CudaRuntime {
  import opened GpuSpec
  import opened GpuContext
  import opened GpuOutcomes

  const MAX_HOST_ALLOCS: nat := 1024
  const MAX_MEMSET: nat := 1073741824

  datatype Error = NoError | InvalidValue | MemoryAllocation | InvalidDevice | Unknown

  // ---------------------------------------------------------------- tracked host pointers

  // A pointer is dropped without notice when the table is full.
  function Track(tracked: seq<nat>, p: nat): seq<nat> {
    if |tracked| < MAX_HOST_ALLOCS then tracked + [p] else tracked
  }

  function IndexIn(tracked: seq<nat>, p: nat): (i: nat)
    ensures i <= |tracked| && (i < |tracked| ==> tracked[i] == p) && p !in tracked[..i]
  {
    if tracked == [] || tracked[0] == p then 0 else
    var i := 1 + IndexIn(tracked[1..], p);
    assert tracked[..i] == [tracked[0]] + tracked[1..][..i - 1];
    i
  }

  lemma FirstIndex(tracked: seq<nat>, p: nat, i: nat)
    requires i < |tracked| && tracked[i] == p && p !in tracked[..i]
    ensures IndexIn(tracked, p) == i
  {
    var k := IndexIn(tracked, p);
    assert forall j :: 0 <= j < i ==> tracked[j] == tracked[..i][j];
    assert forall j :: 0 <= j < k ==> tracked[j] == tracked[..k][j];
  }

  function Untrack(tracked: seq<nat>, p: nat): seq<nat> { RemoveIndex(tracked, IndexIn(tracked, p)) }

  /** Freeing takes out the first entry equal to the pointer and keeps the order of the others; a pointer that
      is not tracked changes nothing. */
  lemma UntrackOutcome(tracked: seq<nat>, p: nat)
    ensures p !in tracked ==> Untrack(tracked, p) == tracked
    ensures p in tracked ==>
      && multiset(tracked) == multiset(Untrack(tracked, p)) + multiset{p}
      && exists i :: 0 <= i < |tracked| && tracked[i] == p && p !in tracked[..i]
                     && Untrack(tracked, p) == tracked[..i] + tracked[i + 1..]
  {
    var i := IndexIn(tracked, p);
    if p in tracked {
      assert i < |tracked| by {
        assert tracked[..|tracked|] == tracked;
      }
      assert tracked == tracked[..i] + [p] + tracked[i + 1..];
    } else {
      assert i == |tracked|;
    }
  }

  /** Freeing a host pointer that was just handed out finds it, and restores the table, exactly when
      the table was not full; otherwise the call falls through to the device. */
  lemma TrackThenFree(tracked: seq<nat>, p: nat)
    requires p !in tracked && |tracked| <= 1024
    ensures p in Track(tracked, p) <==> |tracked| < 1024
    ensures Untrack(Track(tracked, p), p) == tracked
  {
    if |tracked| < MAX_HOST_ALLOCS {
      LastFound(tracked, p);
    }
  }

  lemma LastFound(tracked: seq<nat>, p: nat)
    requires p !in tracked
    ensures p in tracked + [p] && IndexIn(tracked + [p], p) == |tracked|
  {
    var all := tracked + [p];
    var i := IndexIn(all, p);
    assert all[|tracked|] == p;
    assert forall j :: 0 <= j < |tracked| ==> all[j] == tracked[j];
  }

  // The value a memset writes count times.
  function Repeat(value: Byte, count: nat): (r: seq<Byte>)
    ensures |r| == count
  {
    seq(count, i => value)
  }

  // What the upload of a repeated value does.
  lemma MemsetOutcome(g: Gpu, next: nat, ptr: nat, value: Byte, count: nat)
    requires 0 < count
    ensures var (now, next') := StepGpu(g, next, ToDevice(0, ptr, Repeat(value, count)));
            && next' == next && now == g.(records := now.records, transferred := g.transferred + count)
            && (!Covered(g.records, ptr, count) ==> now.records == g.records)
            && (Covered(g.records, ptr, count) ==>
                 && Covered(now.records, ptr, count)
                 && (forall i :: 0 <= i < count ==> Read(now.records, ptr, count)[i] == value)
                 && forall x: nat, n: nat :: 0 < n && Covered(g.records, x, n) ==>
                      && Covered(now.records, x, n)
                      && forall k :: 0 <= k < n && (x + k < ptr || ptr + count <= x + k) ==>
                           Read(now.records, x, n)[k] == Read(g.records, x, n)[k])
  {
    var data := Repeat(value, count);
    if Covered(g.records, ptr, count) {
      UploadOutcome(g, ptr, data);
    } else {
      UploadMissed(g, ptr, data);
    }
    hide Covered, Read, IndexOf, GpuSpec.CopyToDevice;
  }

  // g_state.gpu_count: the model has one GPU.
  const GPU_COUNT: int := 1

  class Stream {
    const device: int
    var channel: ChannelObject?

    constructor (device: int)
      ensures this.device == device && channel == null
    {
      this.device := device;
      channel := null;
    }
  }

  class Runtime {
    const gpu: Context
    const hostAllocs: array<nat>
    var hostAllocCount: nat
    var ready: bool
    var lastError: Error
    ghost var tracked: seq<nat>

    ghost predicate Tracking()
      reads this`hostAllocCount, this`tracked, hostAllocs
    {
      hostAllocs.Length == MAX_HOST_ALLOCS && hostAllocCount == |tracked| && Held(hostAllocs, tracked)
    }

    ghost predicate Valid()
      reads this, hostAllocs, gpu, gpu.allocations, gpu.channels
    {
      Tracking() && gpu.Valid()
    }

    // What device calls may change.
    ghost function Device(): set<object>
      reads gpu
    {
      {gpu, gpu.allocations, gpu.channels, gpu.counter} + Stores(gpu.table)
    }

    ghost function State(): (Gpu, nat)
      reads Device(), gpu
    {
      (gpu.View(), gpu.counter.next)
    }

    constructor (gpu: Context)
      requires gpu.Valid()
      ensures Valid() && this.gpu == gpu && ready && tracked == [] && fresh(hostAllocs)
      ensures gpu.View() == old(gpu.View()) && gpu.counter.next == old(gpu.counter.next)
    {
      this.gpu := gpu;
      hostAllocs := new nat[MAX_HOST_ALLOCS];
      hostAllocCount, ready, lastError, tracked := 0, true, NoError, [];
    }

    method Fail(e: Error) returns (error: Error)
      modifies this`lastError
      ensures error == lastError == e
    {
      lastError := e;
      error := e;
    }

    // cudaMalloc: a VIDEO allocation.
    method Malloc(size: nat, storeOk: bool, recordOk: bool) returns (error: Error, ptr: nat)
      requires Valid()
      modifies this`lastError, Device()
      ensures ready == old(ready) && tracked == old(tracked)
      ensures Valid() && fresh(Stores(gpu.table) - old(Stores(gpu.table)))
      ensures error == if size == 0 then InvalidValue else if !ready then InvalidDevice
        else if AllocMemory(old(State()).0, old(State()).1, size, VideoMem, storeOk, recordOk).2 == Success then NoError else MemoryAllocation
      ensures State() == if size == 0 || !ready then old(State())
        else StepGpu(old(State()).0, old(State()).1, Alloc(0, size, VideoMem, storeOk, recordOk))
      ensures error == NoError ==> ptr == old(State()).1
    {
      hide AllocMemory, Records, Held;
      ptr := 0;
      if size == 0 {
        error := Fail(InvalidValue);
        return;
      }
      if !ready {
        error := Fail(InvalidDevice);
        return;
      }
      var status;
      status, ptr := gpu.AllocMemory(size, VideoMem, storeOk, recordOk);
      if status != Success {
        error := Fail(MemoryAllocation);
        return;
      }
      error := NoError;
    }

    // free_tracked_host_alloc: the first entry equal to p goes.
    method FreeTracked(p: nat) returns (found: bool)
      requires Tracking()
      modifies this`hostAllocCount, this`tracked, hostAllocs
      ensures Tracking() && found == (p in old(tracked)) && tracked == Untrack(old(tracked), p)
      ensures !found ==> tracked == old(tracked)
      ensures found ==>
        && multiset(old(tracked)) == multiset(tracked) + multiset{p}
        && exists i :: 0 <= i < |old(tracked)| && old(tracked)[i] == p && p !in old(tracked)[..i]
                       && tracked == old(tracked)[..i] + old(tracked)[i + 1..]
    {
      UntrackOutcome(tracked, p);
      var i := 0;
      while i < hostAllocCount
        invariant Tracking() && tracked == old(tracked)
        invariant i <= hostAllocCount && p !in tracked[..i]
      {
        HeldAt(hostAllocs, tracked, i);
        if hostAllocs[i] == p {
          FirstIndex(tracked, p, i);
          ShiftDown(hostAllocs, i, hostAllocCount);
          hostAllocCount := hostAllocCount - 1;
          tracked := RemoveIndex(tracked, i);
          return true;
        }
        assert tracked[..i + 1] == tracked[..i] + [tracked[i]];
        i := i + 1;
      }
      assert tracked[..i] == tracked;
      return false;
    }

    // track_host_alloc.
    method TrackHost(p: nat)
      requires Tracking()
      modifies this`hostAllocCount, this`tracked, hostAllocs
      ensures Tracking() && tracked == Track(old(tracked), p)
      ensures tracked == if |old(tracked)| < 1024 then old(tracked) + [p] else old(tracked)
    {
      if hostAllocCount < MAX_HOST_ALLOCS {
        hostAllocs[hostAllocCount] := p;
        hostAllocCount := hostAllocCount + 1;
        tracked := tracked + [p];
      }
    }

    // cudaMallocHost: the host allocator yields p, or nothing.
    method MallocHost(size: nat, allocOk: bool, p: nat) returns (error: Error)
      requires Valid()
      modifies this`hostAllocCount, this`tracked, this`lastError, hostAllocs
      ensures Valid() && State() == old(State())
      ensures error == if size == 0 then InvalidValue else if !allocOk then MemoryAllocation else NoError
      ensures tracked == if error == NoError then Track(old(tracked), p) else old(tracked)
    {
      hide Records, Held, Track;
      if size == 0 {
        error := Fail(InvalidValue);
      } else if !allocOk {
        error := Fail(MemoryAllocation);
      } else {
        TrackHost(p);
        error := NoError;
      }
      NoStoreChanged(gpu.table);
    }

    // cudaFree: NULL is ignored, tracked host pointers go first, anything else is a device address
    // whose record is freed with a description of kind 0.
    method Free(ptr: nat) returns (error: Error)
      requires Valid()
      modifies this`lastError, this`hostAllocCount, this`tracked, hostAllocs, Device()
      ensures ready == old(ready)
      ensures Valid() && Stores(gpu.table) <= old(Stores(gpu.table))
      ensures tracked == if ptr == 0 then old(tracked) else Untrack(old(tracked), ptr)
      ensures ptr == 0 || ptr !in old(tracked) ==> tracked == old(tracked)
      ensures ptr != 0 && ptr in old(tracked) ==>
        && multiset(old(tracked)) == multiset(tracked) + multiset{ptr}
        && exists i :: 0 <= i < |old(tracked)| && old(tracked)[i] == ptr && ptr !in old(tracked)[..i]
                       && tracked == old(tracked)[..i] + old(tracked)[i + 1..]
      ensures error == if ptr == 0 || ptr in old(tracked) || old(ready) then NoError else InvalidDevice
      ensures State() == if ptr == 0 || ptr in old(tracked) || !old(ready) then old(State())
        else StepGpu(old(State()).0, old(State()).1, Op.Free(0, ptr, SystemMem, 0))
    {
      hide *;
      Known();
      UntrackOutcome(tracked, ptr);
      if ptr == 0 {
        return NoError;
      }
      var found := FreeTracked(ptr);
      FreedHost();
      error := NoError;
      if !found {
        error := FreeDevice(ptr);
      }
    }

    lemma Known()
      requires Valid()
      ensures Tracking() && gpu.Valid()
    {
    }

    // Only the tracking table changed.
    twostate lemma FreedHost()
      requires unchanged(gpu) && unchanged(gpu.allocations) && unchanged(gpu.channels) && unchanged(gpu.counter)
      requires forall a | a in gpu.table :: unchanged(a.store)
      requires Tracking() && old(gpu.Valid())
      ensures State() == old(State()) && Valid() && Stores(gpu.table) == old(Stores(gpu.table))
    {
      NoStoreChanged(gpu.table);
    }

    // The part of cudaFree for device addresses.
    method FreeDevice(ptr: nat) returns (error: Error)
      requires Valid()
      modifies this`lastError, Device()
      ensures Valid() && ready == old(ready) && tracked == old(tracked) && Stores(gpu.table) <= old(Stores(gpu.table))
      ensures error == if ready then NoError else InvalidDevice
      ensures State() == if !ready then old(State())
        else StepGpu(old(State()).0, old(State()).1, Op.Free(0, ptr, SystemMem, 0))
    {
      hide GpuSpec.FreeMemory, Records, Held;
      if !ready {
        error := Fail(InvalidDevice);
        return;
      }
      gpu.FreeMemory(ptr, SystemMem, 0);
      error := NoError;
    }

    // cudaMemcpy from host to device.
    method Upload(dst: nat, src: array?<Byte>, count: nat) returns (error: Error)
      requires Valid() && (src != null ==> count <= src.Length && src !in Stores(gpu.table))
      modifies this`lastError, Device()
      ensures ready == old(ready) && tracked == old(tracked)
      ensures Valid() && gpu.table == old(gpu.table)
      ensures error == if dst == 0 || src == null || count == 0 then InvalidValue else if !ready then InvalidDevice else NoError
      ensures State() == if error != NoError then old(State())
        else StepGpu(old(State()).0, old(State()).1, ToDevice(0, dst, src[..count]))
    {
      hide GpuSpec.CopyToDevice, Records, Held;
      if dst == 0 || src == null || count == 0 {
        error := Fail(InvalidValue);
        return;
      }
      if !ready {
        error := Fail(InvalidDevice);
        return;
      }
      var status := gpu.CopyToDevice(dst, src, count);
      error := NoError;
    }

    // cudaMemcpy from device to host.
    method Download(dst: array?<Byte>, src: nat, count: nat) returns (error: Error)
      requires Valid() && (dst != null ==> count <= dst.Length && dst !in Stores(gpu.table))
      modifies this`lastError, gpu, dst
      ensures ready == old(ready) && tracked == old(tracked)
      ensures Valid() && gpu.table == old(gpu.table)
      ensures error == if dst == null || src == 0 || count == 0 then InvalidValue else if !ready then InvalidDevice else NoError
      ensures State() == if error != NoError then old(State()) else StepGpu(old(State()).0, old(State()).1, ToHost(0, src, count))
      ensures error == NoError ==>
        dst[..count] == GpuSpec.CopyToHost(old(State()).0, old(dst[..count]), src) && dst[count..] == old(dst[count..])
      ensures dst != null && error != NoError ==> dst[..] == old(dst[..])
    {
      hide GpuSpec.CopyToHost, Records, Held;
      if dst == null || src == 0 || count == 0 {
        error := Fail(InvalidValue);
        NoStoreChanged(gpu.table);
        return;
      }
      if !ready {
        error := Fail(InvalidDevice);
        return;
      }
      var status := gpu.CopyToHost(dst, src, count);
      error := NoError;
    }

    // cudaMemcpy on the device.
    method CopyOnDevice(dst: nat, src: nat, count: nat) returns (error: Error)
      requires Valid() && MayCopy(State().0.records, dst, src, count)
      modifies this`lastError, Device()
      ensures ready == old(ready) && tracked == old(tracked)
      ensures Valid()
      ensures error == if dst == 0 || src == 0 || count == 0 then InvalidValue else if !ready then InvalidDevice else NoError
      ensures State() == if error != NoError then old(State()) else StepGpu(old(State()).0, old(State()).1, OnDevice(0, dst, src, count))
    {
      hide GpuSpec.CopyOnDevice, MayCopy, Covered, IndexOf, Records, Held;
      if dst == 0 || src == 0 || count == 0 {
        error := Fail(InvalidValue);
        return;
      }
      if !ready {
        error := Fail(InvalidDevice);
        return;
      }
      var status := gpu.CopyOnDevice(dst, src, count);
      error := NoError;
    }

    /** cudaMemset: at most 1 GiB, through a host buffer that may not be available.  On a covered range every byte
        becomes the value, and every other byte stays; on any other range the traffic alone is counted. */
    method Memset(ptr: nat, value: Byte, count: nat, bufferOk: bool) returns (error: Error)
      requires Valid()
      modifies this`lastError, Device()
      ensures ready == old(ready) && tracked == old(tracked)
      ensures Valid()
      ensures error == if ptr == 0 || count == 0 || count > 0x4000_0000 then InvalidValue
        else if !bufferOk then MemoryAllocation else if !ready then InvalidDevice else NoError
      ensures State() == if error != NoError then old(State())
        else StepGpu(old(State()).0, old(State()).1, ToDevice(0, ptr, Repeat(value, count)))
      ensures error == NoError ==>
        var was, now := old(State()).0, State().0;
        && State().1 == old(State()).1 && now == was.(records := now.records, transferred := was.transferred + count)
        && (!Covered(was.records, ptr, count) ==> now.records == was.records)
        && (Covered(was.records, ptr, count) ==>
             && Covered(now.records, ptr, count)
             && (forall i :: 0 <= i < count ==> Read(now.records, ptr, count)[i] == value)
             && forall x: nat, n: nat :: 0 < n && Covered(was.records, x, n) ==>
                  && Covered(now.records, x, n)
                  && forall k :: 0 <= k < n && (x + k < ptr || ptr + count <= x + k) ==>
                       Read(now.records, x, n)[k] == Read(was.records, x, n)[k])
    {
      assert MAX_MEMSET == 0x4000_0000;
      hide *;
      if ptr == 0 || count == 0 || count > MAX_MEMSET {
        error := Fail(InvalidValue);
        Untouched();
      } else if !bufferOk {
        error := Fail(MemoryAllocation);
        Untouched();
      } else {
        MemsetOutcome(State().0, State().1, ptr, value, count);
        error := SendFilled(ptr, value, count);
      }
    }

    // Only the last error changed.
    twostate lemma Untouched()
      requires unchanged(gpu) && unchanged(gpu.allocations) && unchanged(gpu.channels) && unchanged(gpu.counter)
      requires unchanged(hostAllocs) && unchanged(this`hostAllocCount) && unchanged(this`tracked) && unchanged(this`ready)
      requires forall a | a in gpu.table :: unchanged(a.store)
      ensures State() == old(State()) && (old(Valid()) ==> Valid())
    {
      NoStoreChanged(gpu.table);
    }

    // The upload of a host buffer with the value in every byte.
    method SendFilled(ptr: nat, value: Byte, count: nat) returns (error: Error)
      requires Valid() && ptr != 0 && count != 0
      modifies this`lastError, Device()
      ensures Valid() && ready == old(ready) && tracked == old(tracked)
      ensures error == if !ready then InvalidDevice else NoError
      ensures State() == if error != NoError then old(State())
        else StepGpu(old(State()).0, old(State()).1, ToDevice(0, ptr, Repeat(value, count)))
    {
      hide StepGpu, Records, Held, Repeat;
      var buffer := Filled(value, count);
      NoStoreChanged(gpu.table);
      assert buffer[..count] == buffer[..];
      error := Upload(ptr, buffer, count);
    }

    // cudaStreamCreate: a stream of device 0 with a channel of its own.
    method StreamCreate(streamOk: bool, channelOk: bool, storeOk: bool, recordOk: bool)
      returns (error: Error, stream: Stream?)
      requires Valid()
      modifies this`lastError, Device()
      ensures ready == old(ready) && tracked == old(tracked)
      ensures Valid() && fresh(Stores(gpu.table) - old(Stores(gpu.table)))
      ensures !ready ==> error == InvalidDevice
      ensures ready && !streamOk ==> error == MemoryAllocation
      ensures ready && streamOk ==>
        (error == if GpuSpec.CreateChannel(old(State()).0, old(State()).1, channelOk, storeOk, recordOk).2 == Success then NoError else Unknown)
      ensures State() == if !ready || !streamOk then old(State())
        else StepGpu(old(State()).0, old(State()).1, Create(0, channelOk, storeOk, recordOk))
      ensures if error == NoError
        then stream != null && stream.device == 0 && stream.channel != null && gpu.open == old(gpu.open) + [stream.channel]
        else stream == null && gpu.open == old(gpu.open)
    {
      hide GpuSpec.CreateChannel, Records, Held;
      stream := null;
      if !ready {
        error := Fail(InvalidDevice);
        return;
      }
      if !streamOk {
        error := Fail(MemoryAllocation);
        return;
      }
      stream := new Stream(0);
      NoStoreChanged(gpu.table);
      error := OpenChannel(stream, channelOk, storeOk, recordOk);
      if error != NoError {
        stream := null;
      }
    }

    // The channel of a new stream.
    method OpenChannel(stream: Stream, channelOk: bool, storeOk: bool, recordOk: bool) returns (error: Error)
      requires Valid()
      modifies this`lastError, Device(), stream
      ensures ready == old(ready) && tracked == old(tracked)
      ensures Valid() && fresh(Stores(gpu.table) - old(Stores(gpu.table)))
      ensures error == if GpuSpec.CreateChannel(old(State()).0, old(State()).1, channelOk, storeOk, recordOk).2 == Success then NoError else Unknown
      ensures State() == StepGpu(old(State()).0, old(State()).1, Create(0, channelOk, storeOk, recordOk))
      ensures if error == NoError then stream.channel != null && gpu.open == old(gpu.open) + [stream.channel] else gpu.open == old(gpu.open)
    {
      hide GpuSpec.CreateChannel, Records, Held;
      var status, channel := gpu.CreateChannel(channelOk, storeOk, recordOk);
      hide *;
      SetChannel(stream, channel);
      error := NoError;
      if status != Success {
        error := Fail(Unknown);
      }
    }

    method SetChannel(stream: Stream, channel: ChannelObject?)
      requires Valid()
      modifies stream
      ensures Valid() && State() == old(State()) && stream.channel == channel
    {
      stream.channel := channel;
      NoStoreChanged(gpu.table);
    }

    /** cudaStreamDestroy: a stream of a device that is not there is an error and destroys nothing. */
    method StreamDestroy(stream: Stream?) returns (error: Error)
      requires Valid()
      requires stream != null && stream.device == 0 && stream.channel != null ==> stream.channel in gpu.open
      modifies this`lastError, Device()
      ensures ready == old(ready) && tracked == old(tracked)
      ensures Valid() && error == if stream != null && stream.device != 0 then InvalidDevice else NoError
      ensures stream == null || old(stream.channel) == null || error != NoError ==> State() == old(State()) && gpu.open == old(gpu.open)
      ensures error != NoError ==> lastError == error
      ensures stream != null && error == NoError ==>
        forall k :: 0 <= k < |old(gpu.open)| && old(gpu.open)[k] == old(stream.channel) ==>
          && gpu.open == RemoveIndex(old(gpu.open), k)
          && State() == StepGpu(old(State()).0, old(State()).1, Destroy(0, k))
    {
      hide GpuSpec.DestroyChannel, Records, Held, RemoveIndex, Channels;
      error := NoError;
      if stream == null {
        return;
      }
      if stream.device < 0 || stream.device >= GPU_COUNT {
        error := Fail(InvalidDevice);
        return;
      }
      if stream.channel != null {
        CloseChannel(stream.channel);
      }
    }

    method CloseChannel(channel: ChannelObject)
      requires Valid() && channel in gpu.open
      modifies Device()
      ensures ready == old(ready) && tracked == old(tracked) && Valid()
      ensures forall k :: 0 <= k < |old(gpu.open)| && old(gpu.open)[k] == channel ==>
        && gpu.open == RemoveIndex(old(gpu.open), k)
        && State() == StepGpu(old(State()).0, old(State()).1, Destroy(0, k))
    {
      hide GpuSpec.DestroyChannel, Records, Held, RemoveIndex, Channels;
      ghost var k :| 0 <= k < |gpu.open| && gpu.open[k] == channel;
      assert forall j :: 0 <= j < |gpu.open| && gpu.open[j] == channel ==> j == k;
      gpu.DestroyChannel(channel);
      assert State() == StepGpu(old(State()).0, old(State()).1, Destroy(0, k));
      hide StepGpu;
    }
  }

  // malloc and memset of a host buffer.
  method Filled(value: Byte, count: nat) returns (buffer: array<Byte>)
    ensures fresh(buffer) && buffer.Length == count && buffer[..] == Repeat(value, count)
  {
    buffer := new Byte[count];
    for i := 0 to count
      invariant forall k :: 0 <= k < i ==> buffer[k] == value
    {
      buffer[i] := value;
    }
  }
}
