/**
 The memory manager of memory_manager.c on top of two pools: device memory and managed memory, with
 the statistics it keeps.  A managed block has a host address beside its GPU address, and its pointer
 is the host address.

 `RunAccounting` is the main result: as long as each pointer is freed by its matching function, over
 every run the number of bytes reported as allocated is exact and the reported peak is their maximum.
 */
module ManagerSpec {
  import opened Words
  import opened Extents
  import opened PoolSpec
  import opened PoolInvariant
  import opened PoolTheorems

  datatype Status = Success | InvalidParam | NoMemory | NotFound

  // hosts[i] is the host address of the i-th live block of the managed pool.
  datatype Manager = Manager(
    device: PoolState, managed: PoolState, hosts: seq<nat>,
    total: nat, peak: nat, allocs: nat, frees: nat)

  function Max(a: nat, b: nat): nat { if a < b then b else a }

  // A block of n bytes is now live.
  function Charge(m: Manager, n: nat): Manager {
    var total := Wrap(m.total + n);
    m.(total := total, peak := if total > m.peak then total else m.peak, allocs := m.allocs + 1)
  }

  // A block of n bytes is gone.
  function Refund(m: Manager, n: nat): Manager {
    m.(total := Wrap(m.total - n), frees := m.frees + 1)
  }

  // ---------------------------------------------------------------- finding a block

  datatype Found = InDevice(k: nat) | InManaged(j: nat) | Nowhere

  // Index of the first managed block with this host or GPU address.
  function FindManaged(used: seq<Extent>, hosts: seq<nat>, ptr: nat): (i: nat)
    requires |hosts| == |used|
    ensures i <= |used|
    ensures i < |used| ==> hosts[i] == ptr || used[i].addr == ptr
    ensures forall j :: 0 <= j < i ==> hosts[j] != ptr && used[j].addr != ptr
  {
    if used == [] || hosts[0] == ptr || used[0].addr == ptr then 0 else 1 + FindManaged(used[1..], hosts[1..], ptr)
  }

  // cb_find_block: the device pool is searched first.
  function FindBlock(m: Manager, ptr: nat): Found
    requires |m.hosts| == |m.managed.used|
  {
    var k := Find(m.device.used, ptr);
    if k < |m.device.used| then InDevice(k) else
    var j := FindManaged(m.managed.used, m.hosts, ptr);
    if j < |m.managed.used| then InManaged(j) else Nowhere
  }

  // ---------------------------------------------------------------- the calls

  function MallocDevice(m: Manager, request: nat, callocOk: bool): (Manager, Status)
    requires 0 < m.device.page
  {
    if request == 0 then (m, InvalidParam)
    else if !Grants(m.device, request) then (m, NoMemory)
    else
      var p := Alloc(m.device, request, callocOk);
      (Charge(m.(device := p), p.used[0].size), Success)
  }

  // The block is given back to the device pool, whichever pool it came from.
  function FreeDevice(m: Manager, ptr: nat): (Manager, Status)
    requires |m.hosts| == |m.managed.used|
  {
    if ptr == 0 then (m, InvalidParam) else
    match FindBlock(m, ptr)
    case InDevice(k) => (Refund(m.(device := FreeAt(m.device, k)), m.device.used[k].size), Success)
    case InManaged(j) => (Refund(StrayManaged(m, j), m.managed.used[j].size), Success)
    case Nowhere => (m, NotFound)
  }

  // The j-th managed block enters the device pool, and the k-th device block the managed pool.  What a
  // pool's used list no longer leads to is gone from it, and so are the host addresses.
  function StrayManaged(m: Manager, j: nat): Manager
    requires j < |m.managed.used| == |m.hosts|
  {
    m.(device := FreeForeign(m.device, m.managed, j), managed := Robbed(m.managed, j),
       hosts := if j == 0 then [] else m.hosts[..j] + m.hosts[j + 1..])
  }

  function StrayDevice(m: Manager, k: nat): Manager
    requires k < |m.device.used|
  {
    m.(managed := FreeForeign(m.managed, m.device, k), device := Robbed(m.device, k),
       hosts := if k == 0 then [] else m.hosts)
  }

  // host is the host address obtained, 0 if there is none: the block is then given back at once.
  function MallocManaged(m: Manager, request: nat, enabled: bool, callocOk: bool, host: nat): (Manager, Status)
    requires 0 < m.managed.page
  {
    if request == 0 || !enabled then (m, InvalidParam)
    else if !Grants(m.managed, request) then (m, NoMemory)
    else
      var p := Alloc(m.managed, request, callocOk);
      if host == 0 then (m.(managed := FreeAt(p, 0)), NoMemory)
      else (Charge(m.(managed := p, hosts := [host] + m.hosts), p.used[0].size), Success)
  }

  function FreeManaged(m: Manager, ptr: nat): (Manager, Status)
    requires |m.hosts| == |m.managed.used|
  {
    if ptr == 0 then (m, InvalidParam) else
    match FindBlock(m, ptr)
    case InManaged(j) =>
      (Refund(m.(managed := FreeAt(m.managed, j), hosts := m.hosts[..j] + m.hosts[j + 1..]), m.managed.used[j].size), Success)
    case InDevice(k) => (Refund(StrayDevice(m, k), m.device.used[k].size), Success)
    case Nowhere => (m, NotFound)
  }

  // cb_mem_get_info: the total and the free size of the device pool as the caller sees them.
  function MemInfo(m: Manager): (nat, nat) {
    (m.device.total, Wrap(m.device.total - Wrap(m.device.ledger)))
  }

  // ---------------------------------------------------------------- the invariant

  ghost function Live(m: Manager): nat { Bytes(m.device.used) + Bytes(m.managed.used) }

  // Both pools are sound, they fit into one counter together, and the statistics are exact.
  ghost predicate Inv(m: Manager) {
    && PoolSpec.Inv(m.device) && PoolSpec.Inv(m.managed)
    && m.device.total + m.managed.total < WORD
    && |m.hosts| == |m.managed.used|
    && m.total == Live(m) && m.total <= m.peak
    && m.allocs == m.frees + |m.device.used| + |m.managed.used|
  }

  lemma BytesFirst(s: seq<Extent>)
    requires s != []
    ensures Bytes(s) == s[0].size + Bytes(s[1..])
  {
  }

  // Adding or taking one live block leaves the rest, and nothing wraps.
  lemma GrantAdds(p: PoolState, request: nat, ok: bool)
    requires PoolSpec.Inv(p) && 0 < request < WORD && Grants(p, request)
    ensures var q := Alloc(p, request, ok);
            && PoolSpec.Inv(q) && q.used[1..] == p.used && |q.used| == |p.used| + 1
            && Bytes(q.used) == Bytes(p.used) + q.used[0].size <= p.total == q.total
  {
    AllocKeepsInv(p, request, ok);
    var q := Alloc(p, request, ok);
    assert q.used[1..] == p.used by { hide AlignUp, FirstFit; }
    BytesFirst(q.used);
    assert Counted(q);
    assert q.total == p.total by { hide AlignUp, FirstFit; }
  }

  lemma FreeSubtracts(p: PoolState, k: nat)
    requires PoolSpec.Inv(p) && k < |p.used|
    ensures var q := FreeAt(p, k);
            && PoolSpec.Inv(q) && |q.used| == |p.used| - 1 && q.total == p.total
            && Bytes(p.used) == Bytes(q.used) + p.used[k].size <= p.total
  {
    FreeKeepsInv(p, k);
    RemoveBytes(p.used, k);
    assert Counted(p);
  }

  lemma BytesOne(b: Extent)
    ensures Bytes([b]) == b.size
  {
  }

  lemma RemoveBytes(s: seq<Extent>, k: nat)
    requires k < |s|
    ensures Bytes(s) == Bytes(s[..k] + s[k + 1..]) + s[k].size
  {
    hide Bytes;
    var left, right := s[..k], s[k + 1..];
    BytesConcat(left, [s[k]] + right);
    BytesConcat([s[k]], right);
    BytesConcat(left, right);
    BytesOne(s[k]);
    assert s == left + ([s[k]] + right);
  }

  // What each call is, case by case.
  lemma MallocDeviceIs(m: Manager, request: nat, ok: bool)
    requires 0 < m.device.page
    ensures request == 0 ==> MallocDevice(m, request, ok) == (m, InvalidParam)
    ensures 0 < request && !Grants(m.device, request) ==> MallocDevice(m, request, ok) == (m, NoMemory)
    ensures 0 < request && Grants(m.device, request) ==>
      var p := Alloc(m.device, request, ok);
      p.used != [] && MallocDevice(m, request, ok) == (Charge(m.(device := p), p.used[0].size), Success)
  {
    assert Grants(m.device, request) ==> Alloc(m.device, request, ok).used != [] by { hide AlignUp, FirstFit; }
    hide Alloc, Grants, Charge;
  }

  lemma MallocManagedIs(m: Manager, request: nat, enabled: bool, ok: bool, host: nat)
    requires 0 < m.managed.page
    ensures request == 0 || !enabled ==> MallocManaged(m, request, enabled, ok, host) == (m, InvalidParam)
    ensures 0 < request && enabled && !Grants(m.managed, request) ==>
      MallocManaged(m, request, enabled, ok, host) == (m, NoMemory)
    ensures 0 < request && enabled && Grants(m.managed, request) ==>
      var p := Alloc(m.managed, request, ok);
      && p.used != []
      && MallocManaged(m, request, enabled, ok, host) ==
           if host == 0 then (m.(managed := FreeAt(p, 0)), NoMemory)
           else (Charge(m.(managed := p, hosts := [host] + m.hosts), p.used[0].size), Success)
  {
    assert Grants(m.managed, request) ==> Alloc(m.managed, request, ok).used != [] by { hide AlignUp, FirstFit; }
    hide Alloc, Grants, Charge, FreeAt;
  }

  lemma FreeDeviceIs(m: Manager, ptr: nat)
    requires |m.hosts| == |m.managed.used|
    ensures ptr == 0 ==> FreeDevice(m, ptr) == (m, InvalidParam)
    ensures ptr != 0 && FindBlock(m, ptr) == Nowhere ==> FreeDevice(m, ptr) == (m, NotFound)
    ensures ptr != 0 && FindBlock(m, ptr).InDevice? ==>
      var k := FindBlock(m, ptr).k;
      && k == Find(m.device.used, ptr) < |m.device.used|
      && FreeDevice(m, ptr) == (Refund(m.(device := FreeAt(m.device, k)), m.device.used[k].size), Success)
    ensures ptr != 0 && FindBlock(m, ptr).InManaged? ==>
      var j := FindBlock(m, ptr).j;
      && j == FindManaged(m.managed.used, m.hosts, ptr) < |m.managed.used|
      && FreeDevice(m, ptr) == (Refund(StrayManaged(m, j), m.managed.used[j].size), Success)
  {
    hide FreeAt, StrayManaged, Refund, Find, FindManaged;
  }

  lemma FreeManagedIs(m: Manager, ptr: nat)
    requires |m.hosts| == |m.managed.used|
    ensures ptr == 0 ==> FreeManaged(m, ptr) == (m, InvalidParam)
    ensures ptr != 0 && FindBlock(m, ptr) == Nowhere ==> FreeManaged(m, ptr) == (m, NotFound)
    ensures ptr != 0 && FindBlock(m, ptr).InManaged? ==>
      var j := FindBlock(m, ptr).j;
      && j == FindManaged(m.managed.used, m.hosts, ptr) < |m.managed.used|
      && FreeManaged(m, ptr) ==
           (Refund(m.(managed := FreeAt(m.managed, j), hosts := m.hosts[..j] + m.hosts[j + 1..]), m.managed.used[j].size), Success)
    ensures ptr != 0 && FindBlock(m, ptr).InDevice? ==>
      var k := FindBlock(m, ptr).k;
      && k == Find(m.device.used, ptr) < |m.device.used|
      && FreeManaged(m, ptr) == (Refund(StrayDevice(m, k), m.device.used[k].size), Success)
  {
    hide FreeAt, StrayDevice, Refund, Find, FindManaged;
  }

  lemma FoundIs(m: Manager, ptr: nat)
    requires |m.hosts| == |m.managed.used|
    ensures var k, j := Find(m.device.used, ptr), FindManaged(m.managed.used, m.hosts, ptr);
            FindBlock(m, ptr) == if k < |m.device.used| then InDevice(k) else if j < |m.managed.used| then InManaged(j) else Nowhere
  {
    hide Find, FindManaged;
  }

  lemma StrayManagedIs(m: Manager, j: nat)
    requires j < |m.managed.used| == |m.hosts|
    ensures StrayManaged(m, j) == m.(device := FreeForeign(m.device, m.managed, j), managed := Robbed(m.managed, j),
                                     hosts := if j == 0 then [] else m.hosts[..j] + m.hosts[j + 1..])
  {
  }

  lemma StrayDeviceIs(m: Manager, k: nat)
    requires k < |m.device.used|
    ensures StrayDevice(m, k) == m.(managed := FreeForeign(m.managed, m.device, k), device := Robbed(m.device, k),
                                    hosts := if k == 0 then [] else m.hosts)
  {
  }

  // The statistics and the lists change independently.
  lemma RefundIs(m: Manager, r: Manager, n: nat)
    requires r.total == m.total && r.frees == m.frees
    ensures Refund(r, n) == r.(total := Refund(m, n).total, frees := Refund(m, n).frees)
  {
  }

  lemma InvParts(m: Manager)
    requires Inv(m)
    ensures PoolSpec.Inv(m.device) && PoolSpec.Inv(m.managed) && m.device.total + m.managed.total < WORD
    ensures 0 < m.device.page && 0 < m.managed.page && |m.hosts| == |m.managed.used|
    ensures m.total == Live(m) < WORD && m.total <= m.peak && m.allocs == m.frees + |m.device.used| + |m.managed.used|
  {
    assert Counted(m.device) && Counted(m.managed);
  }

  // One more live block, or one less, is counted without a wrap.
  lemma ChargeKeepsInv(m: Manager, r: Manager, n: nat)
    requires m.total == Live(m) && m.total <= m.peak && Live(r) == Live(m) + n < WORD
    requires r.total == m.total && r.peak == m.peak && r.allocs == m.allocs && r.frees == m.frees
    requires PoolSpec.Inv(r.device) && PoolSpec.Inv(r.managed) && r.device.total + r.managed.total < WORD
    requires |r.hosts| == |r.managed.used| && m.allocs + 1 == m.frees + |r.device.used| + |r.managed.used|
    ensures Inv(Charge(r, n)) && Charge(r, n).peak == Max(m.peak, Live(Charge(r, n)))
  {
    WrapSmall(r.total + n);
    hide Wrap, PoolSpec.Inv, Bytes;
  }

  lemma RefundKeepsInv(m: Manager, r: Manager, n: nat)
    requires m.total == Live(m) == Live(r) + n < WORD && m.total <= m.peak
    requires r.total == m.total && r.peak == m.peak && r.allocs == m.allocs && r.frees == m.frees
    requires PoolSpec.Inv(r.device) && PoolSpec.Inv(r.managed) && r.device.total + r.managed.total < WORD
    requires |r.hosts| == |r.managed.used| && m.allocs == m.frees + 1 + |r.device.used| + |r.managed.used|
    ensures Inv(Refund(r, n)) && Refund(r, n).peak == m.peak && Live(Refund(r, n)) <= Live(m)
  {
    WrapSmall(r.total - n);
    hide Wrap, PoolSpec.Inv, Bytes;
  }

  lemma LiveBounded(m: Manager)
    requires PoolSpec.Inv(m.device) && PoolSpec.Inv(m.managed)
    ensures Live(m) <= m.device.total + m.managed.total
  {
    assert Counted(m.device) && Counted(m.managed);
    hide Bytes;
  }

  lemma MallocDeviceKeepsInv(m: Manager, request: nat, ok: bool)
    requires Inv(m) && request < WORD
    ensures var (r, status) := MallocDevice(m, request, ok);
            && Inv(r) && (status == Success <==> 0 < request && Grants(m.device, request))
            && r.peak == Max(m.peak, Live(r))
  {
    InvParts(m);
    MallocDeviceIs(m, request, ok);
    hide Alloc, MallocDevice, Charge, PoolSpec.Inv, Bytes, Inv;
    if 0 < request && Grants(m.device, request) {
      var r := m.(device := Alloc(m.device, request, ok));
      GrantAdds(m.device, request, ok);
      LiveBounded(r);
      hide Grants;
      ChargeKeepsInv(m, r, r.device.used[0].size);
    }
  }

  lemma FreeDeviceKeepsInv(m: Manager, ptr: nat)
    requires Inv(m) && (ptr == 0 || !FindBlock(m, ptr).InManaged?)
    ensures var (r, status) := FreeDevice(m, ptr);
            Inv(r) && r.peak == m.peak && Live(r) <= Live(m)
  {
    InvParts(m);
    FreeDeviceIs(m, ptr);
    hide FreeAt, FreeDevice, FindBlock, Find, Refund, PoolSpec.Inv, Bytes, Inv;
    if ptr != 0 && FindBlock(m, ptr).InDevice? {
      var k := FindBlock(m, ptr).k;
      FreeSubtracts(m.device, k);
      RefundKeepsInv(m, m.(device := FreeAt(m.device, k)), m.device.used[k].size);
    }
  }

  lemma MallocManagedKeepsInv(m: Manager, request: nat, enabled: bool, ok: bool, host: nat)
    requires Inv(m) && request < WORD
    ensures var (r, status) := MallocManaged(m, request, enabled, ok, host);
            Inv(r) && r.peak == Max(m.peak, Live(r))
  {
    InvParts(m);
    MallocManagedIs(m, request, enabled, ok, host);
    hide Alloc, FreeAt, MallocManaged, Charge, PoolSpec.Inv, Bytes;
    if 0 < request && enabled && Grants(m.managed, request) {
      var p := Alloc(m.managed, request, ok);
      var r := m.(managed := p, hosts := [host] + m.hosts);
      GrantAdds(m.managed, request, ok);
      FreeSubtracts(p, 0);
      LiveBounded(r);
      hide Grants;
      ChargeKeepsInv(m, r, p.used[0].size);
    }
  }

  lemma FreeManagedKeepsInv(m: Manager, ptr: nat)
    requires Inv(m) && (ptr == 0 || !FindBlock(m, ptr).InDevice?)
    ensures var (r, status) := FreeManaged(m, ptr);
            Inv(r) && r.peak == m.peak && Live(r) <= Live(m)
  {
    InvParts(m);
    FreeManagedIs(m, ptr);
    hide FreeAt, FreeManaged, FindBlock, FindManaged, Refund, PoolSpec.Inv, Bytes, Inv;
    if ptr != 0 && FindBlock(m, ptr).InManaged? {
      var j := FindBlock(m, ptr).j;
      FreeSubtracts(m.managed, j);
      RefundKeepsInv(m, m.(managed := FreeAt(m.managed, j), hosts := m.hosts[..j] + m.hosts[j + 1..]), m.managed.used[j].size);
    }
  }

  // ---------------------------------------------------------------- the host buffer of a managed block

  // The size of the block that a grant hands out.
  lemma GrantedSize(p: PoolState, request: nat, ok: bool)
    requires PoolSpec.Inv(p) && 0 < request < WORD && Grants(p, request)
    ensures var n := AlignUp(request, p.page);
            var b := p.free[FirstFit(p.free, n)];
            && Alloc(p, request, ok).used != []
            && Alloc(p, request, ok).used[0].size == (if n + p.page < b.size && ok then n else b.size)
            && request <= n <= b.size && (n == request <==> request % p.page == 0)
  {
    GrantFits(p, request, FirstFit(p.free, AlignUp(request, p.page)));
    AlignedSize(p, request);
    hide AlignUp, FirstFit;
  }

  lemma AlignedSize(p: PoolState, request: nat)
    requires Configured(p) && 0 < request < WORD && Grants(p, request)
    ensures AlignUp(request, p.page) == request <==> request % p.page == 0
  {
    GrantSize(p, request);
    var n := AlignUp(request, p.page);
    hide AlignUp;
    if request % p.page == 0 {
      SumMod(n, request, p.page);
      RemainderUnique(n - request, p.page, 0, n - request);
    }
  }

  /** cb_free_managed zeroes as many bytes of the host buffer as the block has, and the buffer is as long
      as the request.  The block is never shorter, and the erasure stays inside the buffer exactly when
      the request is whole pages and the first fit is split or fits exactly. */
  lemma ErasureInBounds(m: Manager, request: nat, ok: bool, host: nat)
    requires Inv(m) && 0 < request < WORD && Grants(m.managed, request) && host != 0
    ensures var (r, status) := MallocManaged(m, request, true, ok, host);
            var b := m.managed.free[FirstFit(m.managed.free, AlignUp(request, m.managed.page))];
            && status == Success && r.managed.used != [] && request <= r.managed.used[0].size
            && (r.managed.used[0].size <= request <==>
                  request % m.managed.page == 0 && (b.size == request || (request + m.managed.page < b.size && ok)))
  {
    InvParts(m);
    MallocManagedIs(m, request, true, ok, host);
    GrantedSize(m.managed, request, ok);
    hide Alloc, Grants, FirstFit, AlignUp, MallocManaged, PoolSpec.Inv, Inv;
  }

  // ---------------------------------------------------------------- the wrong function

  /** The pool a block came from always breaks: its first address is in no block any more. */
  lemma OwnPoolBreaks(q: PoolState, k: nat)
    requires PoolSpec.Inv(q) && k < |q.used|
    ensures !PoolSpec.Inv(Robbed(q, k))
  {
    var x := q.used[k].addr;
    assert q.used[k].Has(x);
    CoveredOnce(q, x);
    RemoveAt(q.used, k, x);
    CoverOne(q.used[k], x);
    UsedBlockInPool(q, k);
    var r := Robbed(q, k);
    assert Cover(r.free, x) + Cover(r.used, x) != if r.base <= x < r.base + r.total then 1 else 0;
  }

  // Both used lists have as many blocks, and cover the same addresses.
  ghost predicate SameLive(p: PoolState, q: PoolState) {
    |p.used| == |q.used| && SameCover(p.used, q.used)
  }

  /** The pool a block is freed into does not always notice: its invariant survives exactly when the block
      was first on the other used list and the two used lists cover the same addresses with as many blocks.
      Then p's own live blocks are forgotten. */
  lemma ReceiverSurvives(p: PoolState, q: PoolState, k: nat)
    requires PoolSpec.Inv(p) && PoolSpec.Inv(q) && k < |q.used|
    ensures PoolSpec.Inv(FreeForeign(p, q, k)) <==> k == 0 && SameLive(p, q)
  {
    if k == 0 && SameLive(p, q) {
      SameLiveSurvives(p, q);
    }
    if PoolSpec.Inv(FreeForeign(p, q, k)) {
      SurvivorsSame(p, q, k);
    }
    hide PoolSpec.Inv, FreeForeign, SameLive;
  }

  // At each address the block is added to p, and q's other blocks replace p's if it was the first.
  lemma ForeignCovers(p: PoolState, q: PoolState, k: nat, x: int)
    requires k < |q.used|
    ensures var r := FreeForeign(p, q, k);
            && Cover(r.free, x) + Cover(r.used, x) ==
                 Cover(p.free, x) + (if k == 0 then Cover(q.used, x) else Cover(p.used, x) + Cover([q.used[k]], x))
            && Bytes(r.free) == Bytes(p.free) + q.used[k].size
            && (k == 0 ==> Bytes(r.used) + q.used[0].size == Bytes(q.used))
  {
    ReleaseCovers(p.free, q.used[k], x);
    RemoveAt(q.used, 0, x);
    assert q.used[..0] + q.used[1..] == q.used[1..];
    hide Cover, Bytes, Release;
  }

  lemma ForeignFields(p: PoolState, q: PoolState, k: nat)
    requires k < |q.used|
    ensures var r := FreeForeign(p, q, k);
            && r.base == p.base && r.total == p.total && r.page == p.page && r.slack == p.slack
            && r.free == Release(p.free, q.used[k]) && r.used == (if k == 0 then q.used[1..] else p.used)
            && r.ledger == p.ledger - q.used[k].size && r.blockCount == p.blockCount - (|p.free| + 1 - |r.free|)
  {
    hide Release;
  }

  lemma SurvivorsSame(p: PoolState, q: PoolState, k: nat)
    requires PoolSpec.Inv(p) && PoolSpec.Inv(q) && k < |q.used| && PoolSpec.Inv(FreeForeign(p, q, k))
    ensures k == 0 && SameLive(p, q)
  {
    var r := FreeForeign(p, q, k);
    var b := q.used[k];
    assert b.Has(b.addr);
    ForeignFields(p, q, k);
    assert Counted(p) && Counted(r);
    hide FreeForeign, Cover, Release, Bytes;
    CoverOne(b, b.addr);
    ForeignCovers(p, q, k, b.addr);
    CoveredOnce(p, b.addr);
    CoveredOnce(r, b.addr);
    assert k == 0;
    forall x: int ensures Cover(p.used, x) == Cover(q.used, x) {
      ForeignCovers(p, q, k, x);
      CoveredOnce(p, x);
      CoveredOnce(r, x);
    }
  }

  lemma UsedDisjoint(p: PoolState)
    requires PoolSpec.Inv(p)
    ensures Disjoint(p.used) && NonEmpty(p.used)
  {
    assert Shaped(p);
    forall x: int ensures Cover(p.used, x) <= 1 {
      CoveredOnce(p, x);
    }
  }

  lemma SameLiveSurvives(p: PoolState, q: PoolState)
    requires PoolSpec.Inv(p) && PoolSpec.Inv(q) && q.used != [] && SameLive(p, q)
    ensures PoolSpec.Inv(FreeForeign(p, q, 0))
  {
    var r := FreeForeign(p, q, 0);
    var b := q.used[0];
    ForeignFields(p, q, 0);
    UsedDisjoint(p);
    UsedDisjoint(q);
    BytesDetermined(p.used, q.used);
    ForeignCovers(p, q, 0, 0);
    UsedBlockInPool(p, 0);
    assert Counted(p) && Accounted(p) && Shaped(p) && Configured(p);
    hide FreeForeign, Cover, Release, Bytes;
    forall x: int ensures Cover(r.free, x) + Cover(r.used, x) == if r.base <= x < r.base + r.total then 1 else 0 {
      ForeignCovers(p, q, 0, x);
      CoveredOnce(p, x);
      assert Cover(p.used, x) == Cover(q.used, x);
    }
    forall x: int | b.Has(x) ensures Cover(p.free, x) == 0 {
      CoverAtLeast(q.used, 0, x);
      CoveredOnce(p, x);
      assert Cover(p.used, x) == Cover(q.used, x);
    }
    ReleaseCanonical(p.free, b);
    assert Counted(r) && Accounted(r) && Shaped(r) && Tiled(r) && Configured(r);
  }

  predicate Inside(p: PoolState, x: int) { p.base <= x < p.base + p.total }

  ghost predicate Apart(m: Manager) {
    forall x: int :: Inside(m.device, x) ==> !Inside(m.managed, x)
  }

  // cb_memory_manager_init: where the pools of a device lie.
  function Initial(id: nat, memory: nat): Manager {
    Manager(Init(0x2_0000_0000 + id * 0x1_0000_0000, memory, 0x20_0000), Init(0x1_0000_0000, memory / 2, 0x1_0000),
            [], 0, 0, 0, 0)
  }

  lemma InitialInv(id: nat, memory: nat)
    requires 0x2_0000_0000 + id * 0x1_0000_0000 + memory + 0x20_0000 < WORD && memory + memory / 2 < WORD - 0x2_0000_0000
    ensures Inv(Initial(id, memory))
  {
    InitInv(0x2_0000_0000 + id * 0x1_0000_0000, memory, 0x20_0000);
    InitInv(0x1_0000_0000, memory / 2, 0x1_0000);
    hide PoolSpec.Inv, StartsAligned;
  }

  /** The two pools of a device share no address exactly up to 8 GB of memory for device 0, and 8 GB more
      for each later device. */
  lemma InitialApart(id: nat, memory: nat)
    ensures Apart(Initial(id, memory)) <==> memory / 2 <= (id + 1) * 0x1_0000_0000
  {
    var m := Initial(id, memory);
    if memory / 2 > (id + 1) * 0x1_0000_0000 {
      assert Inside(m.device, m.device.base) && Inside(m.managed, m.device.base);
    }
  }

  // A pool with one free block that is long enough is cut from the front.
  lemma FrontGrant(p: PoolState, request: nat, n: nat)
    requires 0 < p.page && AlignUp(request, p.page) == n && request <= n && |p.free| == 1 && n + p.page < p.free[0].size
    ensures var q := Alloc(p, request, true);
            Grants(p, request) && q == p.(free := [Extent(p.free[0].addr + n, p.free[0].size - n)],
                                         used := [Extent(p.free[0].addr, n)] + p.used,
                                         ledger := p.ledger + n, blockCount := p.blockCount + 1)
  {
    hide AlignUp;
  }

  lemma RoundedUp()
    ensures AlignUp(1, 0x20_0000) == 0x20_0000 && AlignUp(1, 0x1_0000) == 0x1_0000
    ensures AlignUp(0x1_0000_0000, 0x1_0000) == 0x1_0000_0000 && AlignUp(0x20_0000, 0x1_0000) == 0x20_0000
  {
    hide AlignUp, Wrap;
    AlignUpTo(1, 0x20_0000, 1);
    AlignUpTo(1, 0x1_0000, 1);
    AlignUpTo(0x1_0000_0000, 0x1_0000, 0x1_0000);
    AlignUpTo(0x20_0000, 0x1_0000, 0x20);
  }

  /** On a device with 24 GB three calls make a device block and a managed block live at the same address:
      cb_find_block then finds the device block under the managed block's GPU address. */
  lemma SameAddressTwice(host: nat, host': nat)
    requires host != 0 && host' != 0
    ensures var m := Initial(0, 0x6_0000_0000);
            var m1 := MallocDevice(m, 1, true).0;
            var m2 := MallocManaged(m1, 0x1_0000_0000, true, true, host).0;
            var m3 := MallocManaged(m2, 1, true, true, host').0;
            && m3.device.used != [] && m3.managed.used != [] && m3.hosts == [host', host]
            && m3.device.used[0].addr == m3.managed.used[0].addr == 0x2_0000_0000
            && |m3.hosts| == |m3.managed.used| && FindBlock(m3, m3.managed.used[0].addr) == InDevice(0)
  {
    hide *;
    var m := Initial(0, 0x6_0000_0000);
    InitialPools();
    RoundedUp();
    DeviceFront(m, 1, 0x20_0000);
    var m1 := MallocDevice(m, 1, true).0;
    ManagedFront(m1, 0x1_0000_0000, 0x1_0000_0000, host);
    var m2 := MallocManaged(m1, 0x1_0000_0000, true, true, host).0;
    ManagedFront(m2, 1, 0x1_0000, host');
    FirstFound(MallocManaged(m2, 1, true, true, host').0, 0x2_0000_0000);
  }

  lemma InitialPools()
    ensures var m := Initial(0, 0x6_0000_0000);
            && m.device.page == 0x20_0000 && m.managed.page == 0x1_0000 && m.hosts == []
            && m.device.free == [Extent(0x2_0000_0000, 0x6_0000_0000)] && m.device.used == []
            && m.managed.free == [Extent(0x1_0000_0000, 0x3_0000_0000)] && m.managed.used == []
            && m.device.ledger == 0 && m.device.blockCount == 1
  {
  }

  lemma DeviceFront(m: Manager, request: nat, n: nat)
    requires 0 < m.device.page && AlignUp(request, m.device.page) == n && 0 < request <= n
    requires |m.device.free| == 1 && n + m.device.page < m.device.free[0].size
    ensures var r := MallocDevice(m, request, true).0;
            var p := m.device;
            && r.device == p.(free := [Extent(p.free[0].addr + n, p.free[0].size - n)],
                              used := [Extent(p.free[0].addr, n)] + p.used, ledger := p.ledger + n, blockCount := p.blockCount + 1)
            && r.managed == m.managed && r.hosts == m.hosts
  {
    FrontGrant(m.device, request, n);
    MallocDeviceIs(m, request, true);
    ChargeKeeps(m.(device := Alloc(m.device, request, true)), n);
    hide Alloc, Grants, AlignUp, MallocDevice, Charge;
  }

  lemma ManagedFront(m: Manager, request: nat, n: nat, host: nat)
    requires 0 < m.managed.page && AlignUp(request, m.managed.page) == n && 0 < request <= n && host != 0
    requires |m.managed.free| == 1 && n + m.managed.page < m.managed.free[0].size
    ensures var r := MallocManaged(m, request, true, true, host).0;
            var b := m.managed.free[0];
            && r.managed.used == [Extent(b.addr, n)] + m.managed.used && r.managed.free == [Extent(b.addr + n, b.size - n)]
            && r.managed.page == m.managed.page && r.device == m.device && r.hosts == [host] + m.hosts
  {
    FrontGrant(m.managed, request, n);
    MallocManagedIs(m, request, true, true, host);
    ChargeKeeps(m.(managed := Alloc(m.managed, request, true), hosts := [host] + m.hosts), n);
    hide Alloc, Grants, AlignUp, MallocManaged, Charge;
  }

  lemma ChargeKeeps(m: Manager, n: nat)
    ensures Charge(m, n).device == m.device && Charge(m, n).managed == m.managed && Charge(m, n).hosts == m.hosts
  {
  }

  lemma FirstFound(m: Manager, ptr: nat)
    requires |m.hosts| == |m.managed.used| && m.device.used != [] && m.device.used[0].addr == ptr
    ensures FindBlock(m, ptr) == InDevice(0)
  {
  }

  /** On the same device the pool a block is freed into may not notice.  One device block, two managed
      blocks, the first of these freed properly and the second by cb_free_device: the device pool is in its
      initial state, with its invariant, although its block was never freed. */
  lemma ForeignFreeUnnoticed(host: nat, host': nat)
    requires host != 0 && host' != 0 && host != host'
    requires {host, host'} !! {0x1_0000_0000, 0x2_0000_0000}
    ensures var m := Initial(0, 0x6_0000_0000);
            var m1 := MallocDevice(m, 1, true).0;
            var m2 := MallocManaged(m1, 0x1_0000_0000, true, true, host).0;
            var m3 := MallocManaged(m2, 0x20_0000, true, true, host').0;
            && |m3.hosts| == |m3.managed.used|
            && var m4 := FreeManaged(m3, host).0;
            && |m4.hosts| == |m4.managed.used| && m4.device == m1.device && |m4.device.used| == 1
            && FindBlock(m4, host') == InManaged(0) && FreeDevice(m4, host').1 == Success
            && FreeDevice(m4, host').0.device == m.device && PoolSpec.Inv(m.device)
  {
    hide *;
    var m := Initial(0, 0x6_0000_0000);
    InitialPools();
    RoundedUp();
    DeviceFront(m, 1, 0x20_0000);
    var m1 := MallocDevice(m, 1, true).0;
    ManagedFront(m1, 0x1_0000_0000, 0x1_0000_0000, host);
    var m2 := MallocManaged(m1, 0x1_0000_0000, true, true, host).0;
    ManagedFront(m2, 0x20_0000, 0x20_0000, host');
    var m3 := MallocManaged(m2, 0x20_0000, true, true, host').0;
    SecondFreed(m3, host, host');
    ReleaseFront(Extent(0x2_0000_0000, 0x20_0000), Extent(0x2_0020_0000, 0x5_FFE0_0000));
    var m4 := FreeManaged(m3, host).0;
    FirstStrays(m4, host');
    InitialDeviceInv();
  }

  lemma InitialDeviceInv()
    ensures PoolSpec.Inv(Initial(0, 0x6_0000_0000).device)
  {
    InitInv(0x2_0000_0000, 0x6_0000_0000, 0x20_0000);
    hide PoolSpec.Inv;
  }

  lemma ReleaseFront(b: Extent, rest: Extent)
    requires 0 < b.size && b.addr + b.size == rest.addr
    ensures Release([rest], b) == [Extent(b.addr, b.size + rest.size)]
  {
  }

  lemma SecondFreed(m: Manager, host: nat, host': nat)
    requires m.hosts == [host', host] && |m.managed.used| == 2 && host != host' && host != 0
    requires forall i :: 0 <= i < |m.device.used| ==> m.device.used[i].addr != host
    requires m.managed.used[0].addr != host
    ensures var r := FreeManaged(m, host).0;
            r.device == m.device && r.hosts == [host'] && r.managed.used == [m.managed.used[0]]
  {
    FindIs(m.device.used, host, |m.device.used|);
    FindManagedIs(m.managed.used, m.hosts, host, 1);
    hide Find, FindManaged;
    FreeManagedIs(m, host);
    hide FreeManaged, Release;
  }

  lemma FirstStrays(m: Manager, host: nat)
    requires m.hosts == [host] && |m.managed.used| == 1 && host != 0
    requires forall i :: 0 <= i < |m.device.used| ==> m.device.used[i].addr != host
    ensures FindBlock(m, host) == InManaged(0) && FreeDevice(m, host).1 == Success
    ensures var b := m.managed.used[0];
            var free' := Release(m.device.free, b);
            FreeDevice(m, host).0.device == m.device.(free := free', used := [], ledger := m.device.ledger - b.size,
              blockCount := m.device.blockCount - (|m.device.free| + 1 - |free'|))
  {
    FindIs(m.device.used, host, |m.device.used|);
    FindManagedIs(m.managed.used, m.hosts, host, 0);
    hide Find, FindManaged;
    FreeDeviceIs(m, host);
    hide FreeDevice, Release;
  }

  // ---------------------------------------------------------------- runs

  datatype Op =
    | DeviceMalloc(request: nat, callocOk: bool)
    | DeviceFree(ptr: nat)
    | ManagedMalloc(request: nat, enabled: bool, callocOk: bool, host: nat)
    | ManagedFree(ptr: nat)

  // Sizes are machine words, and a pointer is freed by the function that matches its pool.
  predicate Legal(m: Manager, op: Op)
    requires |m.hosts| == |m.managed.used|
  {
    match op
    case DeviceMalloc(request, _) => request < WORD
    case DeviceFree(ptr) => ptr == 0 || !FindBlock(m, ptr).InManaged?
    case ManagedMalloc(request, _, _, _) => request < WORD
    case ManagedFree(ptr) => ptr == 0 || !FindBlock(m, ptr).InDevice?
  }

  function Step(m: Manager, op: Op): Manager
    requires |m.hosts| == |m.managed.used| && 0 < m.device.page && 0 < m.managed.page
  {
    match op
    case DeviceMalloc(request, ok) => MallocDevice(m, request, ok).0
    case DeviceFree(ptr) => FreeDevice(m, ptr).0
    case ManagedMalloc(request, enabled, ok, host) => MallocManaged(m, request, enabled, ok, host).0
    case ManagedFree(ptr) => FreeManaged(m, ptr).0
  }

  lemma StepKeepsInv(m: Manager, op: Op)
    requires Inv(m) && Legal(m, op)
    ensures Inv(Step(m, op)) && Step(m, op).peak == Max(m.peak, Live(Step(m, op)))
  {
    hide MallocDevice, MallocManaged, FreeDevice, FreeManaged;
    match op
    case DeviceMalloc(request, ok) => MallocDeviceKeepsInv(m, request, ok);
    case DeviceFree(ptr) => FreeDeviceKeepsInv(m, ptr);
    case ManagedMalloc(request, enabled, ok, host) => MallocManagedKeepsInv(m, request, enabled, ok, host);
    case ManagedFree(ptr) => FreeManagedKeepsInv(m, ptr);
  }

  // A free by the function of the other pool never keeps the invariant.
  lemma StrayBreaks(m: Manager, ptr: nat)
    requires Inv(m) && ptr != 0
    ensures FindBlock(m, ptr).InManaged? ==> !Inv(FreeDevice(m, ptr).0)
    ensures FindBlock(m, ptr).InDevice? ==> !Inv(FreeManaged(m, ptr).0)
  {
    InvParts(m);
    FreeDeviceIs(m, ptr);
    FreeManagedIs(m, ptr);
    hide FreeDevice, FreeManaged, FindBlock, FindManaged, Find, FreeForeign, Robbed, PoolSpec.Inv, Bytes;
    match FindBlock(m, ptr)
    case InManaged(j) => OwnPoolBreaks(m.managed, j);
    case InDevice(k) => OwnPoolBreaks(m.device, k);
    case Nowhere =>
  }

  lemma FreeDeviceOutcome(m: Manager, ptr: nat)
    requires Inv(m)
    ensures Inv(FreeDevice(m, ptr).0) <==> ptr == 0 || !FindBlock(m, ptr).InManaged?
  {
    InvParts(m);
    hide Inv, FreeDevice, FindBlock;
    if ptr == 0 || !FindBlock(m, ptr).InManaged? {
      FreeDeviceKeepsInv(m, ptr);
    } else {
      StrayBreaks(m, ptr);
    }
  }

  lemma FreeManagedOutcome(m: Manager, ptr: nat)
    requires Inv(m)
    ensures Inv(FreeManaged(m, ptr).0) <==> ptr == 0 || !FindBlock(m, ptr).InDevice?
  {
    InvParts(m);
    hide Inv, FreeManaged, FindBlock;
    if ptr == 0 || !FindBlock(m, ptr).InDevice? {
      FreeManagedKeepsInv(m, ptr);
    } else {
      StrayBreaks(m, ptr);
    }
  }

  /** The restriction of RunAccounting cannot be widened: a call with sizes below the word size keeps the
      invariant exactly when it does not free a pointer by the function of the other pool. */
  lemma MatchingFreeNeeded(m: Manager, op: Op)
    requires Inv(m)
    requires op.DeviceMalloc? || op.ManagedMalloc? ==> op.request < WORD
    ensures Inv(Step(m, op)) <==> Legal(m, op)
  {
    InvParts(m);
    hide Inv, FreeDevice, FreeManaged, FindBlock, MallocDevice, MallocManaged;
    match op
    case DeviceFree(ptr) => FreeDeviceOutcome(m, ptr);
    case ManagedFree(ptr) => FreeManagedOutcome(m, ptr);
    case _ => StepKeepsInv(m, op);
  }

  ghost predicate LegalRun(m: Manager, ops: seq<Op>)
    requires Inv(m)
    decreases |ops|
  {
    ops == [] || (Legal(m, ops[0]) && (StepKeepsInv(m, ops[0]); LegalRun(Step(m, ops[0]), ops[1..])))
  }

  ghost function Run(m: Manager, ops: seq<Op>): Manager
    requires Inv(m) && LegalRun(m, ops)
    decreases |ops|
  {
    if ops == [] then m else (StepKeepsInv(m, ops[0]); Run(Step(m, ops[0]), ops[1..]))
  }

  // The largest number of live bytes at any point of the run.
  ghost function HighWater(m: Manager, ops: seq<Op>): nat
    requires Inv(m) && LegalRun(m, ops)
    decreases |ops|
  {
    if ops == [] then Live(m) else (StepKeepsInv(m, ops[0]); Max(Live(m), HighWater(Step(m, ops[0]), ops[1..])))
  }

  /** Over every run the bytes reported as allocated are exactly the live bytes of both pools, the
      reported peak is their maximum over the run, and allocations less frees is the number of live
      blocks; nothing wraps. */
  lemma {:induction false} RunAccounting(m: Manager, ops: seq<Op>)
    requires Inv(m) && LegalRun(m, ops)
    ensures var r := Run(m, ops);
            && Inv(r) && r.total == Live(r) && r.allocs - r.frees == |r.device.used| + |r.managed.used|
            && r.peak == Max(m.peak, HighWater(m, ops))
    decreases |ops|
  {
    if ops != [] {
      StepKeepsInv(m, ops[0]);
      hide Step, Legal, PoolSpec.Inv, Live;
      RunAccounting(Step(m, ops[0]), ops[1..]);
    }
  }

  /** A managed allocation whose host memory cannot be had leaves every list as it was, and the
      statistics; only the pool's own usage counter is short by the slack of the block it had taken. */
  lemma FailedManagedRestores(m: Manager, request: nat, ok: bool)
    requires Inv(m) && 0 < request < WORD && Grants(m.managed, request)
    ensures var (r, status) := MallocManaged(m, request, true, ok, 0);
            var slack := Alloc(m.managed, request, ok).slack - m.managed.slack;
            && status == NoMemory && r == m.(managed := r.managed)
            && r.managed.free == m.managed.free && r.managed.used == m.managed.used
            && r.managed.blockCount == m.managed.blockCount
            && r.managed.ledger == m.managed.ledger - slack
  {
    AllocThenFree(m.managed, request, ok);
    hide Alloc, FreeAt, AlignUp;
  }

  // A block just granted is first on its pool's used list.
  lemma NewestFound(p: PoolState, request: nat, ok: bool)
    requires 0 < p.page && Grants(p, request)
    ensures Alloc(p, request, ok).used != [] && Find(Alloc(p, request, ok).used, Alloc(p, request, ok).used[0].addr) == 0
  {
    hide AlignUp, FirstFit;
  }

  // What a manager with one block more says about that block's address.
  lemma FreeNewest(m: Manager, p: PoolState, n: nat)
    requires |m.hosts| == |m.managed.used| && m.total < WORD && p.used != [] && n == p.used[0].size
    requires Find(p.used, p.used[0].addr) == 0 && p.used[0].addr != 0
    ensures var r := Charge(m.(device := p), n);
            && FindBlock(r, p.used[0].addr) == InDevice(0)
            && FreeDevice(r, p.used[0].addr) == (Refund(r.(device := FreeAt(p, 0)), n), Success)
            && Refund(r.(device := FreeAt(p, 0)), n).total == m.total
  {
    WrapAdd(m.total + n, 0 - n);
    WrapSmall(m.total);
    hide Wrap, FreeAt;
  }

  /** Device memory that is allocated and freed at once leaves both lists and the live byte count as they
      were: the pointer handed out is found, in the device pool, at the head of its used list. */
  lemma MallocThenFreeDevice(m: Manager, request: nat, ok: bool)
    requires Inv(m) && 0 < request < WORD && Grants(m.device, request)
    ensures var (r, status) := MallocDevice(m, request, ok);
            && status == Success && r.device.used != []
            && (r.device.used[0].addr != 0 ==>
                 var (back, freed) := FreeDevice(r, r.device.used[0].addr);
                 && FindBlock(r, r.device.used[0].addr) == InDevice(0) && freed == Success && back.total == m.total
                 && back.device.free == m.device.free && back.device.used == m.device.used && back.managed == m.managed)
  {
    var p := Alloc(m.device, request, ok);
    AllocThenFree(m.device, request, ok);
    NewestFound(m.device, request, ok);
    MallocDeviceKeepsInv(m, request, ok);
    GrantAdds(m.device, request, ok);
    InvParts(m);
    hide Alloc, AlignUp, FreeAt, PoolSpec.Inv, Inv, Grants, Bytes, Find, FindBlock, FreeDevice;
    if p.used[0].addr != 0 {
      FreeNewest(m, p, p.used[0].size);
    }
  }

  /** What cb_mem_get_info reports as free is the free bytes of the pool plus all slack ever granted,
      modulo the word size; it is right exactly when that slack is a multiple of the word size. */
  lemma MemInfoDrift(m: Manager)
    requires Inv(m)
    ensures MemInfo(m) == (m.device.total, Wrap(Bytes(m.device.free) + m.device.slack))
    ensures MemInfo(m).1 == Bytes(m.device.free) <==> m.device.slack % WORD == 0
  {
    UsageDrift(m.device);
    WrapExact(Bytes(m.device.used), m.device.slack, m.device.total);
    assert Counted(m.device);
    FreeDrift(Bytes(m.device.free), m.device.slack);
  }

  lemma FreeDrift(free: nat, slack: nat)
    requires free < WORD
    ensures Wrap(free + slack) == free <==> slack % WORD == 0
  {
    var q, r := slack / WORD, slack % WORD;
    assert slack == WORD * q + r;
    if free + r < WORD {
      RemainderUnique(free + slack, WORD, q, free + r);
    } else {
      RemainderUnique(free + slack, WORD, q + 1, free + r - WORD);
    }
  }

  lemma {:induction false} FindIs(used: seq<Extent>, ptr: nat, k: nat)
    requires k <= |used| && (k < |used| ==> used[k].addr == ptr) && forall j :: 0 <= j < k ==> used[j].addr != ptr
    ensures Find(used, ptr) == k
  {
  }

  lemma {:induction false} FindManagedIs(used: seq<Extent>, hosts: seq<nat>, ptr: nat, k: nat)
    requires |hosts| == |used| && k <= |used| && (k < |used| ==> hosts[k] == ptr || used[k].addr == ptr)
    requires forall j :: 0 <= j < k ==> hosts[j] != ptr && used[j].addr != ptr
    ensures FindManaged(used, hosts, ptr) == k
  {
  }
}
