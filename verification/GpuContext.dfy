/**
 The GPU context of nvidia_gpu.c: two fixed arrays with their counts, a backing store per record, and
 the address counter shared by all contexts.  Every method is proved against GpuSpec.
 */
module GpuContext {
  import opened Words
  import opened GpuSpec
  import opened GpuAccounting

  class Allocation {
    const addr: nat
    const kind: Kind
    const size: nat
    const store: array<Byte>

    constructor (addr: nat, kind: Kind, store: array<Byte>)
      ensures this.addr == addr && this.kind == kind && this.size == store.Length && this.store == store
    {
      this.addr := addr;
      this.kind := kind;
      this.size := store.Length;
      this.store := store;
    }

    ghost function Value(): Record
      reads store
    {
      Record(addr, kind, store[..])
    }
  }

  class ChannelObject {
    const id: nat
    const base: nat

    constructor (id: nat, base: nat)
      ensures this.id == id && this.base == base
    {
      this.id := id;
      this.base := base;
    }

    ghost function Value(): Channel { Channel(id, base) }
  }

  // The static next_gpu_addr, one for all contexts.
  class AddressCounter {
    var next: nat

    constructor (next: nat)
      ensures this.next == next
    {
      this.next := next;
    }
  }

  ghost function Stores(table: seq<Allocation>): set<array<Byte>> {
    set a | a in table :: a.store
  }

  ghost function Records(table: seq<Allocation>): (r: seq<Record>)
    reads Stores(table)
    ensures |r| == |table|
    ensures forall i :: 0 <= i < |table| ==> r[i] == table[i].Value()
  {
    if table == [] then [] else Records(table[..|table| - 1]) + [table[|table| - 1].Value()]
  }

  ghost function Channels(table: seq<ChannelObject>): (r: seq<Channel>)
    ensures |r| == |table|
    ensures forall i :: 0 <= i < |table| ==> r[i] == table[i].Value()
  {
    if table == [] then [] else Channels(table[..|table| - 1]) + [table[|table| - 1].Value()]
  }

  // The array holds the table in its first places.
  ghost predicate Held<T>(a: array<T>, table: seq<T>)
    reads a
  {
    |table| <= a.Length && a[..|table|] == table
  }

  lemma HeldAt<T>(a: array<T>, table: seq<T>, i: nat)
    requires Held(a, table) && i < |table|
    ensures i < a.Length && a[i] == table[i]
  {
    assert a[i] == a[..|table|][i];
  }

  // The shift loop both tables use: entry i goes, the later ones move down by one.
  method ShiftDown<T>(a: array<T>, i: nat, n: nat)
    requires i < n <= a.Length
    modifies a
    ensures a[..n - 1] == RemoveIndex(old(a[..n]), i)
  {
    for j := i to n - 1
      invariant forall k :: 0 <= k < i ==> a[k] == old(a[k])
      invariant forall k :: i <= k < j ==> a[k] == old(a[k + 1])
      invariant forall k :: j <= k < n ==> a[k] == old(a[k])
    {
      a[j] := a[j + 1];
    }
    ghost var was := old(a[..n]);
    assert |RemoveIndex(was, i)| == n - 1;
    forall k | 0 <= k < n - 1 ensures a[k] == RemoveIndex(was, i)[k] {
    }
  }

  method Fill(a: array<Byte>)
    modifies a
    ensures a[..] == Zeros(a.Length)
  {
    for b := 0 to a.Length
      invariant forall k :: 0 <= k < b ==> a[k] == 0
    {
      a[b] := 0;
    }
  }

  // memcpy, between two buffers or between two ranges of one buffer that do not overlap.
  method CopyBytes(to: array<Byte>, at: nat, from: array<Byte>, start: nat, n: nat)
    requires at + n <= to.Length && start + n <= from.Length
    requires to != from || start + n <= at || at + n <= start
    modifies to
    ensures to[..] == Overwrite(old(to[..]), at, old(from[start..start + n]))
  {
    for k := 0 to n
      invariant to != from ==> from[..] == old(from[..])
      invariant forall m :: 0 <= m < to.Length ==> to[m] == if at <= m < at + k then old(from[start + m - at]) else old(to[m])
    {
      to[at + k] := from[start + k];
    }
  }

  lemma IndexAtIs(records: seq<Record>, addr: nat, i: nat)
    requires i <= |records| && forall j :: 0 <= j < i ==> records[j].addr != addr
    requires i < |records| ==> records[i].addr == addr
    ensures IndexAt(records, addr) == i
  {
  }

  lemma IndexOfIs(records: seq<Record>, x: nat, i: nat)
    requires i <= |records| && forall j :: 0 <= j < i ==> !records[j].Has(x)
    requires i < |records| ==> records[i].Has(x)
    ensures IndexOf(records, x) == i
  {
  }

  lemma OverwritePrefix(bytes: seq<Byte>, data: seq<Byte>)
    requires |data| <= |bytes|
    ensures Overwrite(bytes, 0, data)[..|data|] == data && Overwrite(bytes, 0, data)[|data|..] == bytes[|data|..]
  {
  }

  lemma RemoveIndexAt<T>(s: seq<T>, i: nat)
    requires i < |s|
    ensures |RemoveIndex(s, i)| == |s| - 1
    ensures forall j :: 0 <= j < |s| - 1 ==> RemoveIndex(s, i)[j] == s[if j < i then j else j + 1]
  {
  }

  lemma RecordsRemove(table: seq<Allocation>, i: nat)
    requires i < |table|
    ensures Records(RemoveIndex(table, i)) == RemoveIndex(Records(table), i)
  {
    hide Records, RemoveIndex;
    RemoveIndexAt(table, i);
    RemoveIndexAt(Records(table), i);
    assert Records(RemoveIndex(table, i)) == RemoveIndex(Records(table), i);
  }

  lemma ChannelsRemove(table: seq<ChannelObject>, i: nat)
    requires i < |table|
    ensures Channels(RemoveIndex(table, i)) == RemoveIndex(Channels(table), i)
  {
    hide Channels, RemoveIndex;
    RemoveIndexAt(table, i);
    RemoveIndexAt(Channels(table), i);
    assert Channels(RemoveIndex(table, i)) == RemoveIndex(Channels(table), i);
  }

  lemma RemoveUpdated<T>(s: seq<T>, i: nat, x: T)
    requires i < |s|
    ensures RemoveIndex(s[i := x], i) == RemoveIndex(s, i)
  {
  }

  lemma RecordsAppend(table: seq<Allocation>, a: Allocation)
    ensures Records(table + [a]) == Records(table) + [a.Value()]
  {
  }

  twostate lemma NoStoreChanged(table: seq<Allocation>)
    requires forall a | a in table :: unchanged(a.store)
    ensures Records(table) == old(Records(table))
  {
  }

  // All records but one are as they were.
  lemma OneRecordChanged(table: seq<Allocation>, was: seq<Record>, i: nat)
    requires i < |table| == |was| && forall j :: 0 <= j < |table| && j != i ==> table[j].Value() == was[j]
    ensures Records(table) == was[i := table[i].Value()]
  {
  }

  class Context {
    const allocations: array<Allocation?>
    const channels: array<ChannelObject?>
    const counter: AddressCounter
    const vramSize: nat
    var allocCount: nat
    var channelCount: nat
    var vramFree: nat
    var transferred: nat
    ghost var table: seq<Allocation>
    ghost var open: seq<ChannelObject>

    // No backing store is one of the context's own arrays: their element types differ.
    ghost predicate Apart(o: object) {
      o != allocations && o != channels && o != counter && o != this
    }

    ghost predicate RecordsValid()
      reads this`allocCount, this`table, allocations
    {
      && allocations.Length == MAX_RECORDS && allocCount == |table| && Held(allocations, table)
      && (forall a :: a in table ==> a.size == a.store.Length && Apart(a.store))
      && (forall i, j :: 0 <= i < j < |table| ==> table[i].store != table[j].store)
    }

    ghost predicate ChannelsValid()
      reads this`channelCount, this`open, channels
    {
      && channels.Length == MAX_CHANNELS && channelCount == |open| && Held(channels, open)
      && (forall i, j :: 0 <= i < j < |open| ==> open[i] != open[j])
    }

    ghost predicate Valid()
      reads this, allocations, channels
    {
      RecordsValid() && ChannelsValid()
    }

    ghost function View(): Gpu
      reads this, Stores(table)
    {
      Gpu(Records(table), Channels(open), vramSize, vramFree, transferred)
    }

    constructor (counter: AddressCounter, vramSize: nat)
      ensures Valid() && this.counter == counter && fresh(allocations) && fresh(channels)
      ensures View() == Gpu([], [], vramSize, vramSize, 0) && table == [] && counter.next == old(counter.next)
    {
      this.allocations := new Allocation?[MAX_RECORDS](_ => null);
      this.channels := new ChannelObject?[MAX_CHANNELS](_ => null);
      this.counter := counter;
      this.vramSize := vramSize;
      allocCount, channelCount, vramFree, transferred := 0, 0, vramSize, 0;
      table, open := [], [];
    }

    // Enters a record in the next free place.
    method Enter(record: Allocation)
      requires RecordsValid() && allocCount < MAX_RECORDS
      requires record.size == record.store.Length && record.store !in Stores(table) && Apart(record.store)
      modifies this`allocCount, this`table, allocations
      ensures RecordsValid() && table == old(table) + [record]
    {
      allocations[allocCount] := record;
      allocCount := allocCount + 1;
      table := table + [record];
    }

    // A zeroed backing store and its record.
    method AddRecord(addr: nat, kind: Kind, n: nat)
      requires RecordsValid() && allocCount < MAX_RECORDS
      modifies this`allocCount, this`table, allocations
      ensures RecordsValid() && fresh(Stores(table) - old(Stores(table)))
      ensures Records(table) == old(Records(table)) + [Record(addr, kind, Zeros(n))]
    {
      hide Records, Zeros, Held;
      ghost var before := table;
      var store := new Byte[n];
      Fill(store);
      var record := new Allocation(addr, kind, store);
      assert Apart(store);
      Enter(record);
      assert record.Value() == Record(addr, kind, Zeros(n));
      NoStoreChanged(before);
      RecordsAppend(before, record);
    }

    // The part of nv_gpu_alloc_memory after its checks; VRAM is refunded when the host runs out.
    method Commit(aligned: nat, kind: Kind, storeOk: bool, recordOk: bool) returns (status: Status)
      requires RecordsValid() && allocCount < MAX_RECORDS && Credit(kind, aligned) <= vramFree
      modifies this`allocCount, this`table, this`vramFree, allocations, counter
      ensures RecordsValid() && fresh(Stores(table) - old(Stores(table)))
      ensures counter.next == old(counter.next) + aligned
      ensures !storeOk || !recordOk ==>
        status == NoMemory && vramFree == old(vramFree) && Records(table) == old(Records(table))
      ensures storeOk && recordOk ==>
        && status == Success && vramFree == old(vramFree) - Credit(kind, aligned)
        && Records(table) == old(Records(table)) + [Record(old(counter.next), kind, Zeros(aligned))]
    {
      hide Records, Zeros, Held;
      var addr := counter.next;
      counter.next := counter.next + aligned;
      if kind == VideoMem {
        vramFree := vramFree - aligned;
      }
      NoStoreChanged(table);
      if !storeOk || !recordOk {
        if kind == VideoMem {
          vramFree := vramFree + aligned;
        }
        NoStoreChanged(table);
        return NoMemory;
      }
      AddRecord(addr, kind, aligned);
      return Success;
    }

    // nv_gpu_alloc_memory.
    method AllocMemory(size: nat, kind: Kind, storeOk: bool, recordOk: bool) returns (status: Status, addr: nat)
      requires Valid()
      modifies this`allocCount, this`table, this`vramFree, allocations, counter
      ensures Valid()
      ensures fresh(Stores(table) - old(Stores(table)))
      ensures (View(), counter.next, status) == GpuSpec.AllocMemory(old(View()), old(counter.next), size, kind, storeOk, recordOk)
      ensures addr == old(counter.next)
    {
      hide AlignUp, Records, Zeros, Held;
      addr := counter.next;
      if size == 0 {
        return InvalidParam, addr;
      }
      if allocCount >= MAX_RECORDS {
        return NoMemory, addr;
      }
      var aligned := AlignUp(size, DEVICE_PAGE);
      if kind == VideoMem && aligned > vramFree {
        return NoMemory, addr;
      }
      status := Commit(aligned, kind, storeOk, recordOk);
    }

    // The search loop of nv_gpu_free_memory.
    method FindStart(addr: nat) returns (i: nat)
      requires RecordsValid()
      ensures i == IndexAt(Records(table), addr)
    {
      hide Records;
      i := 0;
      while i < allocCount
        invariant i <= allocCount && forall j :: 0 <= j < i ==> table[j].addr != addr
      {
        HeldAt(allocations, table, i);
        var a := allocations[i];
        if a != null && a.addr == addr {
          IndexAtIs(Records(table), addr, i);
          return;
        }
        i := i + 1;
      }
      IndexAtIs(Records(table), addr, i);
    }

    // nv_find_alloc_by_addr.
    method FindContaining(x: nat) returns (i: nat)
      requires RecordsValid()
      ensures i == IndexOf(Records(table), x)
    {
      hide Records;
      i := 0;
      while i < allocCount
        invariant i <= allocCount && forall j :: 0 <= j < i ==> !Records(table)[j].Has(x)
      {
        HeldAt(allocations, table, i);
        var a := allocations[i];
        if a != null && a.addr <= x && x < a.addr + a.size {
          IndexOfIs(Records(table), x, i);
          return;
        }
        i := i + 1;
      }
      IndexOfIs(Records(table), x, i);
    }

    // Takes entry i out of the table by shifting the later entries down.
    method Drop(i: nat)
      requires RecordsValid() && i < allocCount
      modifies this`allocCount, this`table, allocations
      ensures RecordsValid() && table == RemoveIndex(old(table), i)
    {
      ShiftDown(allocations, i, allocCount);
      allocCount := allocCount - 1;
      table := RemoveIndex(table, i);
    }

    // Zeroes the backing store of entry i, then drops the entry.
    method Erase(i: nat)
      requires RecordsValid() && i < allocCount
      modifies this`allocCount, this`table, allocations, table[i].store
      ensures RecordsValid() && table == RemoveIndex(old(table), i)
      ensures Records(table) == RemoveIndex(old(Records(table)), i)
      ensures old(table)[i].store[..] == Zeros(old(table)[i].size)
    {
      hide Records, Zeros, Held, RemoveIndex;
      ghost var before := table;
      HeldAt(allocations, table, i);
      Fill(allocations[i].store);
      Drop(i);
      OneRecordChanged(before, old(Records(table)), i);
      RecordsRemove(before, i);
      RemoveUpdated(old(Records(table)), i, before[i].Value());
    }

    // nv_gpu_free_memory: credits what the caller describes, erases the record that starts at addr.
    method FreeMemory(addr: nat, kind: Kind, size: nat)
      requires Valid()
      modifies this`allocCount, this`table, this`vramFree, allocations, Stores(table)
      ensures Valid() && Stores(table) <= old(Stores(table))
      ensures View() == GpuSpec.FreeMemory(old(View()), addr, kind, size)
      ensures forall a | a in old(table) && a !in table :: a.store[..] == Zeros(a.size)
    {
      hide Records, Zeros, Held, IndexAt;
      if kind == VideoMem {
        vramFree := vramFree + size;
      }
      NoStoreChanged(table);
      var i := FindStart(addr);
      if i < allocCount {
        Erase(i);
      }
    }

    // Overwrites part of one backing store; the other records keep their bytes.
    method StoreBytes(i: nat, at: nat, from: array<Byte>, start: nat, n: nat)
      requires RecordsValid() && i < allocCount && at + n <= table[i].size && start + n <= from.Length
      requires table[i].store != from || start + n <= at || at + n <= start
      modifies table[i].store
      ensures RecordsValid()
      ensures Records(table) ==
        old(Records(table))[i := old(Records(table))[i].(bytes := Overwrite(old(Records(table))[i].bytes, at, old(from[start..start + n])))]
    {
      hide Records, Held, Overwrite;
      HeldAt(allocations, table, i);
      CopyBytes(allocations[i].store, at, from, start, n);
      OneRecordChanged(table, old(Records(table)), i);
    }

    // nv_gpu_memcpy_h2d.
    method CopyToDevice(dst: nat, src: array?<Byte>, size: nat) returns (status: Status)
      requires Valid() && (src != null ==> size <= src.Length && src !in Stores(table))
      modifies this`transferred, Stores(table)
      ensures Valid()
      ensures src == null || size == 0 ==> status == InvalidParam && View() == old(View())
      ensures src != null && size != 0 ==> status == Success && View() == GpuSpec.CopyToDevice(old(View()), dst, src[..size])
    {
      hide Records, Held, Overwrite, IndexOf;
      NoStoreChanged(table);
      if src == null || size == 0 {
        return InvalidParam;
      }
      var i := FindContaining(dst);
      if i < allocCount {
        HeldAt(allocations, table, i);
        var offset := dst - allocations[i].addr;
        if offset + size <= allocations[i].size {
          assert src[0..size] == src[..size];
          StoreBytes(i, offset, src, 0, size);
        }
      }
      transferred := transferred + size;
      return Success;
    }

    // nv_gpu_memcpy_d2h.
    method CopyToHost(dst: array?<Byte>, src: nat, size: nat) returns (status: Status)
      requires Valid() && (dst != null ==> size <= dst.Length && dst !in Stores(table))
      modifies this`transferred, dst
      ensures Valid()
      ensures dst == null || size == 0 ==> status == InvalidParam && View() == old(View()) && (dst != null ==> dst[..] == old(dst[..]))
      ensures dst != null && size != 0 ==>
        && status == Success && View() == old(View()).(transferred := old(transferred) + size)
        && dst[..size] == GpuSpec.CopyToHost(old(View()), old(dst[..size]), src) && dst[size..] == old(dst[size..])
    {
      hide Records, Held, Overwrite, IndexOf;
      NoStoreChanged(table);
      if dst == null || size == 0 {
        return InvalidParam;
      }
      assert Apart(dst);
      var i := FindContaining(src);
      if i < allocCount {
        HeldAt(allocations, table, i);
        var offset := src - allocations[i].addr;
        if offset + size <= allocations[i].size {
          assert Records(table)[i].bytes == allocations[i].store[..];
          CopyBytes(dst, 0, allocations[i].store, offset, size);
          OverwritePrefix(old(dst[..]), old(Records(table))[i].bytes[offset..offset + size]);
        }
      }
      transferred := transferred + size;
      return Success;
    }

    // nv_gpu_memcpy_d2d.
    method CopyOnDevice(dst: nat, src: nat, size: nat) returns (status: Status)
      requires Valid() && MayCopy(View().records, dst, src, size)
      modifies Stores(table)
      ensures Valid() && View() == GpuSpec.CopyOnDevice(old(View()), dst, src, size)
      ensures status == if size == 0 then InvalidParam else Success
    {
      hide Records, Held, Overwrite, IndexOf;
      NoStoreChanged(table);
      if size == 0 {
        return InvalidParam;
      }
      var i := FindContaining(src);
      var j := FindContaining(dst);
      if i < allocCount && j < allocCount {
        HeldAt(allocations, table, i);
        HeldAt(allocations, table, j);
        var from, to := src - allocations[i].addr, dst - allocations[j].addr;
        if from + size <= allocations[i].size && to + size <= allocations[j].size {
          assert Records(table)[i].bytes == allocations[i].store[..];
          StoreBytes(j, to, allocations[i].store, from, size);
        }
      }
      return Success;
    }

    // ---------------------------------------------------------------- channels

    // nv_gpu_create_channel; the push buffer is an ordinary record of SYSTEM memory.
    method CreateChannel(channelOk: bool, storeOk: bool, recordOk: bool) returns (status: Status, channel: ChannelObject?)
      requires Valid()
      modifies this`allocCount, this`table, this`vramFree, this`channelCount, this`open, allocations, channels, counter
      ensures Valid() && fresh(Stores(table) - old(Stores(table)))
      ensures (View(), counter.next, status) == GpuSpec.CreateChannel(old(View()), old(counter.next), channelOk, storeOk, recordOk)
      ensures if status == Success then channel != null && open == old(open) + [channel] else open == old(open)
    {
      hide Records, Held, AlignUp;
      channel := null;
      if channelCount >= MAX_CHANNELS || !channelOk {
        return NoMemory, null;
      }
      var base;
      status, base := AllocMemory(PUSH_BUFFER, SystemMem, storeOk, recordOk);
      if status != Success {
        return status, null;
      }
      channel := Open(base);
    }

    // A new channel over this push buffer, last in the array.
    method Open(base: nat) returns (channel: ChannelObject)
      requires ChannelsValid() && channelCount < MAX_CHANNELS
      modifies this`channelCount, this`open, channels
      ensures ChannelsValid() && fresh(channel) && open == old(open) + [channel]
      ensures channel.Value() == Channel(old(channelCount), base)
      ensures Channels(open) == old(Channels(open)) + [channel.Value()]
    {
      channel := new ChannelObject(channelCount, base);
      channels[channelCount] := channel;
      channelCount := channelCount + 1;
      open := open + [channel];
      assert open[..|open| - 1] == old(open);
    }

    // Takes channel k out of the array by shifting the later ones down.
    method Close(k: nat)
      requires ChannelsValid() && k < channelCount
      modifies this`channelCount, this`open, channels
      ensures ChannelsValid() && open == RemoveIndex(old(open), k)
      ensures Channels(open) == RemoveIndex(old(Channels(open)), k)
    {
      ChannelsRemove(open, k);
      ShiftDown(channels, k, channelCount);
      channelCount := channelCount - 1;
      open := RemoveIndex(open, k);
    }

    // nv_gpu_destroy_channel: the push buffer is freed first, then the channel is looked up by identity.
    method DestroyChannel(channel: ChannelObject)
      requires Valid()
      modifies this`allocCount, this`table, this`vramFree, this`channelCount, this`open, allocations, channels, Stores(table)
      ensures Valid() && Stores(table) <= old(Stores(table))
      ensures forall k :: 0 <= k < |old(open)| && old(open)[k] == channel ==>
        View() == GpuSpec.DestroyChannel(old(View()), k) && open == RemoveIndex(old(open), k)
      ensures channel !in old(open) ==>
        View() == GpuSpec.FreeMemory(old(View()), channel.base, SystemMem, 0) && open == old(open)
    {
      hide Records, Held, GpuSpec.FreeMemory, RemoveIndex, Channels;
      FreeMemory(channel.base, SystemMem, 0);
      var i := FindChannel(channel);
      if i < channelCount {
        Close(i);
      }
    }

    // The search loop of nv_gpu_destroy_channel.
    method FindChannel(channel: ChannelObject) returns (i: nat)
      requires ChannelsValid()
      ensures i <= |open| && (i < |open| ==> open[i] == channel) && channel !in open[..i]
    {
      i := 0;
      while i < channelCount
        invariant i <= channelCount && forall j :: 0 <= j < i ==> open[j] != channel
      {
        HeldAt(channels, open, i);
        if channels[i] == channel {
          return;
        }
        i := i + 1;
      }
    }

    // nv_gpu_shutdown: both tables are drained from the end.
    method Shutdown()
      requires Valid()
      modifies this`allocCount, this`table, this`vramFree, this`channelCount, this`open, allocations, channels, Stores(table)
      ensures Valid() && View() == GpuAccounting.Shutdown(old(View())).gpu
    {
      DrainChannels();
      DrainRecords();
    }

    method LastChannel() returns (channel: ChannelObject)
      requires ChannelsValid() && channelCount > 0
      ensures channel == open[|open| - 1]
    {
      HeldAt(channels, open, channelCount - 1);
      channel := channels[channelCount - 1];
    }

    method LastRecord() returns (a: Allocation)
      requires RecordsValid() && allocCount > 0
      ensures a == table[|table| - 1] && a.size == a.store.Length
    {
      HeldAt(allocations, table, allocCount - 1);
      a := allocations[allocCount - 1];
    }

    method DrainChannels()
      requires Valid()
      modifies this`allocCount, this`table, this`vramFree, this`channelCount, this`open, allocations, channels, Stores(table)
      ensures Valid() && Stores(table) <= old(Stores(table))
      ensures View() == GpuAccounting.DrainChannels(old(View())).gpu
    {
      hide Records, Held, GpuSpec.DestroyChannel, GpuAccounting.DrainChannels, RemoveIndex, Channels;
      while channelCount > 0
        invariant Valid() && Stores(table) <= old(Stores(table))
        invariant GpuAccounting.DrainChannels(View()).gpu == GpuAccounting.DrainChannels(old(View())).gpu
      {
        var channel := LastChannel();
        OneFewer(open);
        OneDrained(View());
        DestroyChannel(channel);
      }
      NoneToDrain(View());
    }

    // Frees the last record by passing it whole.
    method FreeLast()
      requires Valid() && allocCount > 0
      modifies this`allocCount, this`table, this`vramFree, allocations, Stores(table)
      ensures Valid() && Stores(table) <= old(Stores(table)) && allocCount == old(allocCount) - 1
      ensures GpuAccounting.DrainRecords(View()).gpu == GpuAccounting.DrainRecords(old(View())).gpu
    {
      hide Records, Held, GpuSpec.FreeMemory, GpuAccounting.DrainRecords, Channels;
      var a := LastRecord();
      assert View().records[|table| - 1] == a.Value();
      FreeShortens(View(), a.kind, a.size);
      OneFreed(View());
      FreeMemory(a.addr, a.kind, a.size);
    }

    method DrainRecords()
      requires Valid()
      modifies this`allocCount, this`table, this`vramFree, allocations, Stores(table)
      ensures Valid() && View() == GpuAccounting.DrainRecords(old(View())).gpu
    {
      hide Records, Held, GpuAccounting.DrainRecords, Channels;
      while allocCount > 0
        invariant Valid() && Stores(table) <= old(Stores(table))
        invariant GpuAccounting.DrainRecords(View()).gpu == GpuAccounting.DrainRecords(old(View())).gpu
      {
        FreeLast();
      }
      NoneToFree(View());
    }
  }

  lemma OneDrained(g: Gpu)
    requires g.channels != []
    ensures DrainChannels(g).gpu == DrainChannels(DestroyChannel(g, |g.channels| - 1)).gpu
  {
  }

  lemma NoneToDrain(g: Gpu)
    ensures g.channels == [] ==> DrainChannels(g).gpu == g
  {
  }

  lemma OneFreed(g: Gpu)
    requires g.records != []
    ensures var r := g.records[|g.records| - 1];
            DrainRecords(g).gpu == DrainRecords(FreeMemory(g, r.addr, r.kind, |r.bytes|)).gpu
  {
  }

  lemma NoneToFree(g: Gpu)
    ensures g.records == [] ==> DrainRecords(g).gpu == g
  {
  }

  lemma OneFewer<T>(s: seq<T>)
    requires s != []
    ensures |RemoveIndex(s, |s| - 1)| == |s| - 1
  {
  }

  // Freeing the last record by its address always takes some record out.
  lemma FreeShortens(g: Gpu, kind: Kind, size: nat)
    requires g.records != []
    ensures |FreeMemory(g, g.records[|g.records| - 1].addr, kind, size).records| == |g.records| - 1
  {
  }
}
