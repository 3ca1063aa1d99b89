/** The memory manager of memory_manager.c in the heap: two pools of linked blocks and the counters. */
module MemoryManager {
  import opened Words
  import opened PoolSpec
  import opened BlockList
  import opened MemoryPool
  import ManagerSpec

  lemma NothingYet(p: PoolState, q: PoolState)
    requires PoolSpec.Inv(p) && PoolSpec.Inv(q) && p.used == [] && q.used == [] && p.total + q.total < WORD
    ensures ManagerSpec.Inv(ManagerSpec.Manager(p, q, [], 0, 0, 0, 0))
  {
    hide PoolSpec.Inv;
  }

  lemma NoGrant(p: PoolState, request: nat, ok: bool)
    requires 0 < p.page && !Grants(p, request)
    ensures Alloc(p, request, ok) == p
  {
  }

  class Manager {
    const device: Pool
    const managed: Pool
    var total: nat
    var peak: nat
    var allocCount: nat
    var freeCount: nat
    // The host addresses of the live managed blocks, in list order.
    ghost var hosts: seq<nat>

    ghost predicate Pools()
      reads device, managed, device.nodes, managed.nodes
    {
      device != managed && device.nodes !! managed.nodes && device.Valid() && managed.Valid()
    }

    // The live managed blocks carry these host addresses.
    ghost predicate Hosted()
      reads this`hosts, managed`used, managed.used`hostAddr
    {
      |hosts| == |managed.used| && forall i :: 0 <= i < |hosts| ==> managed.used[i].hostAddr == hosts[i]
    }

    ghost predicate Valid()
      reads this, device, managed, device.nodes, managed.nodes, managed.used`hostAddr
    {
      Pools() && Hosted() && ManagerSpec.Inv(View())
    }

    ghost function View(): ManagerSpec.Manager
      reads this, device`view, managed`view
    {
      ManagerSpec.Manager(device.view, managed.view, hosts, total, peak, allocCount, freeCount)
    }

    lemma Parts()
      requires Valid()
      ensures Pools() && Hosted() && ManagerSpec.Inv(View())
      ensures device.Valid() && managed.Valid() && |hosts| == |managed.used| && device != managed
    {
    }

    lemma Again()
      requires Pools() && Hosted() && ManagerSpec.Inv(View())
      ensures Valid()
    {
    }

    lemma ViewIs()
      ensures View() == ManagerSpec.Manager(device.view, managed.view, hosts, total, peak, allocCount, freeCount)
    {
    }

    lemma PoolsParts()
      requires Pools()
      ensures device != managed && device.nodes !! managed.nodes && device.Valid() && managed.Valid()
      ensures |managed.used| == |managed.view.used|
      ensures forall i :: 0 <= i < |managed.used| ==> managed.used[i] in managed.nodes
      ensures forall i :: 0 <= i < |device.used| ==> device.used[i] in device.nodes
    {
    }

    lemma PoolsAgain()
      requires device != managed && device.nodes !! managed.nodes && device.Valid() && managed.Valid()
      ensures Pools()
    {
    }

    lemma HostsOf()
      requires Hosted()
      ensures |hosts| == |managed.used| && forall i :: 0 <= i < |hosts| ==> managed.used[i].hostAddr == hosts[i]
    {
    }

    lemma HostedBy()
      requires |hosts| == |managed.used| && forall i :: 0 <= i < |hosts| ==> managed.used[i].hostAddr == hosts[i]
      ensures Hosted()
    {
    }

    constructor (deviceBase: nat, deviceSize: nat, devicePage: nat, managedBase: nat, managedSize: nat, managedPage: nat)
      requires 0 < devicePage && deviceBase + deviceSize + devicePage < WORD
      requires 0 < managedPage && managedBase + managedSize + managedPage < WORD
      requires deviceSize + managedSize < WORD
      ensures Valid() && fresh(device) && fresh(managed) && fresh(device.nodes) && fresh(managed.nodes)
      ensures View() == ManagerSpec.Manager(Init(deviceBase, deviceSize, devicePage), Init(managedBase, managedSize, managedPage), [], 0, 0, 0, 0)
    {
      hide Pool.Sound, PoolSpec.Inv, ManagerSpec.Inv;
      device := new Pool(deviceBase, deviceSize, devicePage);
      managed := new Pool(managedBase, managedSize, managedPage);
      total, peak, allocCount, freeCount, hosts := 0, 0, 0, 0, [];
      new;
      NothingYet(device.view, managed.view);
      hide *;
      PoolsAgain();
      PoolsParts();
      HostedBy();
      ViewIs();
      Again();
    }

    // The statistics after a block of n bytes was granted.
    method Charge(n: nat)
      modifies this`total, this`peak, this`allocCount
      ensures ManagerSpec.Charge(old(View()), n) == old(View()).(total := total, peak := peak, allocs := allocCount)
    {
      total := Wrap(total + n);
      if total > peak {
        peak := total;
      }
      allocCount := allocCount + 1;
    }

    // A block from the device pool, if one is granted.
    method TakeDevice(request: nat, callocOk: bool) returns (block: Block?)
      requires Pools() && Hosted() && 0 < request < WORD
      modifies device, device.nodes`next, device.nodes`prev, device.nodes`size, device.nodes`isAllocated
      ensures Pools() && Hosted() && fresh(device.nodes - old(device.nodes))
      ensures device.view == Alloc(old(device.view), request, callocOk)
      ensures block != null <==> Grants(old(device.view), request)
      ensures block != null ==> device.view.used != [] && block.Range() == device.view.used[0]
    {
      hide Pool.Valid, Alloc, Grants;
      block := device.Alloc(request, callocOk);
      if block != null {
        device.UsedShown(0);
      }
    }

    // cb_malloc_device.
    method MallocDevice(request: nat, callocOk: bool) returns (status: ManagerSpec.Status, ptr: nat)
      requires Valid() && request < WORD
      modifies this, device, device.nodes
      ensures Valid() && fresh(device.nodes - old(device.nodes)) && managed.nodes == old(managed.nodes)
      ensures (View(), status) == ManagerSpec.MallocDevice(old(View()), request, callocOk)
      ensures status == ManagerSpec.Success ==> device.view.used != [] && ptr == device.view.used[0].addr
    {
      hide *;
      Parts();
      ViewIs();
      ManagerSpec.InvParts(View());
      ManagerSpec.MallocDeviceKeepsInv(View(), request, callocOk);
      ManagerSpec.MallocDeviceIs(View(), request, callocOk);
      ptr := 0;
      if request == 0 {
        return ManagerSpec.InvalidParam, 0;
      }
      var block := TakeDevice(request, callocOk);
      if block == null {
        NoGrant(old(device.view), request, callocOk);
        status := ManagerSpec.NoMemory;
      } else {
        RangeIs(block);
        ViewIs();
        ptr := block.addr;
        Charge(block.size);
        status := ManagerSpec.Success;
      }
      ViewIs();
      Again();
    }

    // cb_find_block, the part that searches the device pool.
    method FindDevice(ptr: nat) returns (block: Block?, ghost k: nat)
      requires device.Valid()
      ensures k == Find(device.view.used, ptr) && block == At(device.used, Find(device.view.used, ptr))
    {
      device.UsedLinked();
      hide Pool.Valid, At;
      block, k := device.usedList, 0;
      while block != null
        invariant k <= |device.used| && block == At(device.used, k)
        invariant forall j :: 0 <= j < k ==> device.view.used[j].addr != ptr
        decreases |device.used| - k
      {
        InRange(device.used, k);
        device.UsedShown(k);
        if block.addr == ptr {
          break;
        }
        block := block.next;
        k := k + 1;
      }
      InRange(device.used, k);
      if k < |device.used| {
        device.UsedShown(k);
      }
      ManagerSpec.FindIs(device.view.used, ptr, k);
    }

    // cb_find_block, the part that searches the managed pool.
    method FindManaged(ptr: nat) returns (block: Block?, ghost k: nat)
      requires managed.Valid() && Hosted()
      ensures |hosts| == |managed.view.used|
      ensures k == ManagerSpec.FindManaged(managed.view.used, hosts, ptr)
      ensures block == At(managed.used, ManagerSpec.FindManaged(managed.view.used, hosts, ptr))
    {
      managed.UsedLinked();
      hide Pool.Valid, At;
      block, k := managed.usedList, 0;
      while block != null
        invariant k <= |managed.used| && block == At(managed.used, k)
        invariant forall j :: 0 <= j < k ==> hosts[j] != ptr && managed.view.used[j].addr != ptr
        decreases |managed.used| - k
      {
        InRange(managed.used, k);
        managed.UsedShown(k);
        if block.hostAddr == ptr || block.addr == ptr {
          break;
        }
        block := block.next;
        k := k + 1;
      }
      InRange(managed.used, k);
      if k < |managed.used| {
        managed.UsedShown(k);
      }
      ManagerSpec.FindManagedIs(managed.view.used, hosts, ptr, k);
    }

    method Refund(n: nat)
      modifies this`total, this`freeCount
      ensures ManagerSpec.Refund(old(View()), n) == old(View()).(total := total, frees := freeCount)
    {
      total := Wrap(total - n);
      freeCount := freeCount + 1;
    }

    /** cb_find_block.  `own` says that the block is on the device pool's used list. */
    method FindBlock(ptr: nat) returns (block: Block?, own: bool, ghost k: nat)
      requires Valid()
      ensures |hosts| == |managed.view.used| && |device.used| == |device.view.used| && |managed.used| == |managed.view.used|
      ensures ManagerSpec.FindBlock(View(), ptr) ==
        if block == null then ManagerSpec.Nowhere else if own then ManagerSpec.InDevice(k) else ManagerSpec.InManaged(k)
      ensures block != null && own ==>
        k < |device.used| && block == device.used[k] && block.size == device.view.used[k].size && block.isAllocated
      ensures block != null && !own ==>
        k < |managed.used| && block == managed.used[k] && block.size == managed.view.used[k].size && block.isAllocated
    {
      hide *;
      Parts();
      ViewIs();
      device.UsedLinked();
      managed.UsedLinked();
      own := true;
      block, k := FindDevice(ptr);
      InRange(device.used, k);
      ghost var j;
      if block == null {
        own := false;
        block, j := FindManaged(ptr);
        InRange(managed.used, j);
      }
      ManagerSpec.FoundIs(View(), ptr);
      if block != null && own {
        device.UsedShown(k);
        RangeIs(block);
      } else if block != null {
        k := j;
        managed.UsedShown(k);
        RangeIs(block);
      }
    }

    /** cb_free_device.  The block goes to the device pool, whichever pool it is from; the manager stays in
        order exactly when that is the device pool. */
    method FreeDevice(ptr: nat) returns (status: ManagerSpec.Status)
      requires Valid()
      modifies this, device, device.nodes, managed, managed.nodes
      ensures (View(), status) == ManagerSpec.FreeDevice(old(View()), ptr)
      ensures Valid() <==> ptr == 0 || !ManagerSpec.FindBlock(old(View()), ptr).InManaged?
      ensures device.nodes == old(device.nodes) && managed.nodes == old(managed.nodes)
      ensures device.Wired() && device.usedSize == Wrap(device.view.ledger) && device.blockCount == device.view.blockCount
    {
      hide *;
      Parts();
      ViewIs();
      device.InvHolds();
      device.SoundParts();
      ManagerSpec.InvParts(View());
      ManagerSpec.FreeDeviceIs(View(), ptr);
      ManagerSpec.FreeDeviceOutcome(View(), ptr);
      if ptr == 0 {
        return ManagerSpec.InvalidParam;
      }
      var block, own, k := FindBlock(ptr);
      if block == null {
        return ManagerSpec.NotFound;
      }
      if own {
        FreeOwnDevice(block, k);
      } else {
        FreeStrayManaged(block, k);
      }
      InvNeeded();
      status := ManagerSpec.Success;
    }

    lemma InvNeeded()
      ensures Valid() ==> ManagerSpec.Inv(View())
    {
    }

    method FreeOwnDevice(block: Block, ghost k: nat)
      requires Valid() && k < |device.used| == |device.view.used| && block == device.used[k] && block.isAllocated
      requires block.size == device.view.used[k].size
      requires ManagerSpec.Inv(ManagerSpec.Refund(View().(device := FreeAt(device.view, k)), block.size))
      modifies this, device, device.nodes
      ensures k < |old(device.view).used| && Valid() && device.nodes == old(device.nodes) && managed.nodes == old(managed.nodes)
      ensures View() == ManagerSpec.Refund(old(View()).(device := FreeAt(old(device.view), k)), old(device.view).used[k].size)
      ensures device.Wired() && device.usedSize == Wrap(device.view.ledger) && device.blockCount == device.view.blockCount
    {
      hide *;
      Parts();
      PoolsParts();
      HostsOf();
      ViewIs();
      ManagerSpec.RefundIs(View(), View().(device := FreeAt(device.view, k)), block.size);
      Refund(block.size);
      ViewIs();
      device.Free(block);
      device.InvHolds();
      device.SoundParts();
      ViewIs();
      PoolsAgain();
      HostedBy();
      Again();
    }

    method FreeStrayManaged(block: Block, ghost k: nat)
      requires Valid() && k < |managed.used| == |managed.view.used| == |hosts| && block == managed.used[k]
      requires block.size == managed.view.used[k].size
      modifies this, device, device.nodes, managed, managed.nodes
      ensures k < |old(managed.view).used| == |old(hosts)| && device.nodes == old(device.nodes) && managed.nodes == old(managed.nodes)
      ensures View() == ManagerSpec.Refund(ManagerSpec.StrayManaged(old(View()), k), old(managed.view).used[k].size)
      ensures device.Wired() && device.usedSize == Wrap(device.view.ledger) && device.blockCount == device.view.blockCount
    {
      hide *;
      Parts();
      PoolsParts();
      ViewIs();
      ManagerSpec.StrayManagedIs(View(), k);
      ManagerSpec.RefundIs(View(), ManagerSpec.StrayManaged(View(), k), block.size);
      Refund(block.size);
      ViewIs();
      device.FreeStray(managed, block, k);
      hosts := if k == 0 then [] else hosts[..k] + hosts[k + 1..];
      ViewIs();
    }

    // A block from the managed pool, if one is granted; it is first on the used list.
    method TakeManaged(request: nat, callocOk: bool) returns (block: Block?)
      requires Pools() && 0 < request < WORD
      modifies managed, managed.nodes`next, managed.nodes`prev, managed.nodes`size, managed.nodes`isAllocated
      ensures Pools() && fresh(managed.nodes - old(managed.nodes)) && old(managed.nodes) <= managed.nodes
      ensures managed.view == Alloc(old(managed.view), request, callocOk)
      ensures block != null <==> Grants(old(managed.view), request)
      ensures block == null ==> managed.used == old(managed.used)
      ensures block != null ==>
        && block in managed.nodes && block !in old(managed.used) && managed.used == [block] + old(managed.used)
        && managed.view.used != [] && block.Range() == managed.view.used[0] && block.isAllocated
    {
      hide Pool.Valid, Alloc, Grants;
      block := managed.Alloc(request, callocOk);
      if block != null {
        managed.UsedShown(0);
        managed.UsedOnce(0);
        FirstOnce(managed.used, block, old(managed.used));
      }
    }

    // The block just taken goes back at once: no host memory could be had for it.
    method GiveBack(block: Block)
      requires Pools() && managed.used != [] && managed.used[0] == block && Removed(managed.used, 0) == managed.used[1..]
      modifies managed, managed.nodes`next, managed.nodes`prev, managed.nodes`size, managed.nodes`isAllocated
      ensures Pools() && managed.nodes == old(managed.nodes) && managed.used == old(managed.used)[1..]
      ensures old(managed.view).used != [] && managed.view == FreeAt(old(managed.view), 0)
    {
      managed.UsedShown(0);
      hide Pool.Valid, FreeAt;
      managed.Free(block);
    }

    // The part of cb_malloc_managed after a block was taken.
    method FinishManaged(block: Block, host: nat) returns (status: ManagerSpec.Status)
      requires Pools() && block in managed.nodes && managed.used != [] && block == managed.used[0] && block !in managed.used[1..]
      requires |hosts| + 1 == |managed.used| && forall i :: 0 <= i < |hosts| ==> managed.used[1..][i].hostAddr == hosts[i]
      modifies this, managed, managed.nodes
      ensures Pools() && Hosted() && managed.nodes == old(managed.nodes) && device.nodes == old(device.nodes)
      ensures status == if host == 0 then ManagerSpec.NoMemory else ManagerSpec.Success
      ensures host == 0 ==> old(managed.view).used != [] && View() == old(View()).(managed := FreeAt(old(managed.view), 0))
      ensures host != 0 ==> View() == ManagerSpec.Charge(old(View()).(hosts := [host] + old(hosts)), old(block.size))
      ensures host != 0 ==> hosts == [host] + old(hosts)
    {
      hide Pool.Valid, FreeAt;
      if host == 0 {
        RemovedFirst(managed.used);
        GiveBack(block);
        return ManagerSpec.NoMemory;
      }
      SetHost(block, host);
      Charge(block.size);
      status := ManagerSpec.Success;
    }

    // cb_malloc_managed; host is the host memory obtained, 0 if there is none.
    method MallocManaged(request: nat, enabled: bool, callocOk: bool, host: nat)
      returns (status: ManagerSpec.Status, ptr: nat)
      requires Valid() && request < WORD
      modifies this, managed, managed.nodes
      ensures Valid() && fresh(managed.nodes - old(managed.nodes)) && device.nodes == old(device.nodes)
      ensures (View(), status) == ManagerSpec.MallocManaged(old(View()), request, enabled, callocOk, host)
      ensures status == ManagerSpec.Success ==> ptr == host && hosts == [ptr] + old(hosts)
    {
      hide *;
      Parts();
      ViewIs();
      ManagerSpec.InvParts(View());
      ManagerSpec.MallocManagedKeepsInv(View(), request, enabled, callocOk, host);
      ManagerSpec.MallocManagedIs(View(), request, enabled, callocOk, host);
      ptr := 0;
      if request == 0 || !enabled {
        return ManagerSpec.InvalidParam, 0;
      }
      HostsOf();
      var block := TakeManaged(request, callocOk);
      if block == null {
        NoGrant(old(managed.view), request, callocOk);
        status := ManagerSpec.NoMemory;
        HostedBy();
      } else {
        RangeIs(block);
        ViewIs();
        status := FinishManaged(block, host);
        ptr := host;
      }
      ViewIs();
      Again();
    }

    method SetHost(block: Block, host: nat)
      requires Pools() && block in managed.nodes && managed.used != [] && block == managed.used[0] && block !in managed.used[1..]
      requires |hosts| + 1 == |managed.used| && forall i :: 0 <= i < |hosts| ==> managed.used[1..][i].hostAddr == hosts[i]
      modifies block`hostAddr, this`hosts
      ensures Pools() && Hosted() && hosts == [host] + old(hosts)
    {
      hide Pool.Valid;
      block.hostAddr := host;
      hosts := [host] + hosts;
      assert forall i :: 1 <= i < |managed.used| ==> managed.used[i] == managed.used[1..][i - 1];
    }

    /** cb_free_managed.  The block goes to the managed pool, whichever pool it is from; the manager stays in
        order exactly when that is the managed pool. */
    method FreeManaged(ptr: nat) returns (status: ManagerSpec.Status)
      requires Valid()
      modifies this, device, device.nodes, managed, managed.nodes
      ensures (View(), status) == ManagerSpec.FreeManaged(old(View()), ptr)
      ensures Valid() <==> ptr == 0 || !ManagerSpec.FindBlock(old(View()), ptr).InDevice?
      ensures device.nodes == old(device.nodes) && managed.nodes == old(managed.nodes)
      ensures managed.Wired() && managed.usedSize == Wrap(managed.view.ledger) && managed.blockCount == managed.view.blockCount
    {
      hide *;
      Parts();
      ViewIs();
      managed.InvHolds();
      managed.SoundParts();
      ManagerSpec.InvParts(View());
      ManagerSpec.FreeManagedIs(View(), ptr);
      ManagerSpec.FreeManagedOutcome(View(), ptr);
      if ptr == 0 {
        return ManagerSpec.InvalidParam;
      }
      var block, own, k := FindBlock(ptr);
      if block == null {
        return ManagerSpec.NotFound;
      }
      if own {
        FreeStrayDevice(block, k);
      } else {
        FreeOwnManaged(block, k);
      }
      InvNeeded();
      status := ManagerSpec.Success;
    }

    method FreeOwnManaged(block: Block, ghost k: nat)
      requires Valid() && k < |managed.used| == |managed.view.used| == |hosts| && block == managed.used[k] && block.isAllocated
      requires block.size == managed.view.used[k].size
      requires ManagerSpec.Inv(ManagerSpec.Refund(View().(managed := FreeAt(managed.view, k), hosts := hosts[..k] + hosts[k + 1..]), block.size))
      modifies this, managed, managed.nodes
      ensures k < |old(managed.view).used| == |old(hosts)| && Valid() && device.nodes == old(device.nodes) && managed.nodes == old(managed.nodes)
      ensures View() == ManagerSpec.Refund(
        old(View()).(managed := FreeAt(old(managed.view), k), hosts := old(hosts)[..k] + old(hosts)[k + 1..]), old(managed.view).used[k].size)
      ensures managed.Wired() && managed.usedSize == Wrap(managed.view.ledger) && managed.blockCount == managed.view.blockCount
    {
      hide *;
      Parts();
      ViewIs();
      ManagerSpec.RefundIs(View(), View().(managed := FreeAt(managed.view, k), hosts := hosts[..k] + hosts[k + 1..]), block.size);
      Refund(block.size);
      ViewIs();
      DropManaged(k, block);
      PoolsParts();
      managed.InvHolds();
      managed.SoundParts();
      ViewIs();
      Again();
    }

    method FreeStrayDevice(block: Block, ghost k: nat)
      requires Valid() && k < |device.used| == |device.view.used| && block == device.used[k]
      requires block.size == device.view.used[k].size
      modifies this, device, device.nodes, managed, managed.nodes
      ensures k < |old(device.view).used| && device.nodes == old(device.nodes) && managed.nodes == old(managed.nodes)
      ensures View() == ManagerSpec.Refund(ManagerSpec.StrayDevice(old(View()), k), old(device.view).used[k].size)
      ensures managed.Wired() && managed.usedSize == Wrap(managed.view.ledger) && managed.blockCount == managed.view.blockCount
    {
      hide *;
      Parts();
      PoolsParts();
      ViewIs();
      ManagerSpec.StrayDeviceIs(View(), k);
      ManagerSpec.RefundIs(View(), ManagerSpec.StrayDevice(View(), k), block.size);
      Refund(block.size);
      ViewIs();
      managed.FreeStray(device, block, k);
      hosts := if k == 0 then [] else hosts;
      ViewIs();
    }

    // The k-th managed block goes, with its host address.
    method DropManaged(ghost k: nat, block: Block)
      requires Pools() && Hosted() && k < |managed.used| && block == managed.used[k] && block.isAllocated
      modifies this`hosts, managed, managed.nodes`next, managed.nodes`prev, managed.nodes`size, managed.nodes`isAllocated
      ensures Pools() && Hosted() && managed.nodes == old(managed.nodes)
      ensures k < |old(managed.view).used| && managed.view == FreeAt(old(managed.view), k)
      ensures hosts == old(hosts)[..k] + old(hosts)[k + 1..]
    {
      hide *;
      HostsOf();
      PoolsParts();
      managed.UsedLinked();
      managed.UsedOnce(k);
      managed.Free(block);
      RemovedHosts(old(managed.used), hosts, k);
      hosts := Removed(hosts, k);
      HostedBy();
      PoolsAgain();
    }

    // cb_mem_get_info.
    method MemInfo() returns (free: nat, total: nat)
      requires Valid()
      ensures (total, free) == ManagerSpec.MemInfo(View())
    {
      total := device.totalSize;
      free := Wrap(device.totalSize - device.usedSize);
    }
  }

  lemma FirstOnce(s: seq<Block>, block: Block, rest: seq<Block>)
    requires s == [block] + rest && forall j :: 0 <= j < |s| && j != 0 ==> s[j] != block
    ensures block !in rest
  {
    assert forall j :: 0 <= j < |rest| ==> rest[j] == s[j + 1];
  }

  lemma RemovedFirst(s: seq<Block>)
    requires s != []
    ensures Removed(s, 0) == s[1..]
  {
  }

  // The host addresses stay with their blocks.
  lemma RemovedHosts(used: seq<Block>, hosts: seq<nat>, k: nat)
    requires |hosts| == |used| && k < |used| && forall i :: 0 <= i < |hosts| ==> used[i].hostAddr == hosts[i]
    ensures Removed(hosts, k) == hosts[..k] + hosts[k + 1..] && |Removed(hosts, k)| == |Removed(used, k)|
    ensures forall i :: 0 <= i < |Removed(hosts, k)| ==> Removed(used, k)[i].hostAddr == Removed(hosts, k)[i]
  {
  }

  lemma InRange(s: seq<Block>, k: nat)
    ensures At(s, k) != null <==> k < |s|
    ensures k < |s| ==> At(s, k) == s[k]
  {
  }
}
