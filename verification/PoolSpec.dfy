/**
 What the pool allocator of memory_manager.c computes, as functions on values: the free list and
 the used list as sequences of intervals, and the counters.  `MemoryPool` proves that the linked
 lists in the heap follow these functions step by step.
 */
module PoolSpec {
  import opened Extents
  import opened Words

  /**
   `ledger` is the value `used_size` would have in unbounded arithmetic: the C counter holds
   `Wrap(ledger)`.  `slack` is not a field of the C structure: it records the bytes handed out
   beyond the aligned request whenever a block was granted whole.
   */
  datatype PoolState = PoolState(
    base: nat, total: nat, page: nat,
    free: seq<Extent>, used: seq<Extent>,
    ledger: int, blockCount: int, slack: nat)

  datatype Op = AllocOp(request: nat, callocOk: bool) | FreeOp(addr: nat)

  // Index of the first block of at least n bytes, or |free| if there is none.
  function FirstFit(free: seq<Extent>, n: nat): (i: nat)
    ensures i <= |free|
    ensures i < |free| ==> n <= free[i].size
    ensures forall j :: 0 <= j < i ==> free[j].size < n
  {
    if free == [] || n <= free[0].size then 0 else 1 + FirstFit(free[1..], n)
  }

  // Where a block starting at addr goes in an address-ordered list.
  function InsertPos(free: seq<Extent>, addr: nat): (i: nat)
    ensures i <= |free|
    ensures i < |free| ==> addr <= free[i].addr
    ensures forall j :: 0 <= j < i ==> free[j].addr < addr
  {
    if free == [] || addr <= free[0].addr then 0 else 1 + InsertPos(free[1..], addr)
  }

  // Index of the first block that starts at addr, or |s| if there is none.
  function Find(s: seq<Extent>, addr: nat): (i: nat)
    ensures i <= |s|
    ensures i < |s| ==> s[i].addr == addr
    ensures forall j :: 0 <= j < i ==> s[j].addr != addr
  {
    if s == [] || s[0].addr == addr then 0 else 1 + Find(s[1..], addr)
  }

  function Init(base: nat, total: nat, page: nat): PoolState {
    PoolState(base, total, page, [Extent(base, total)], [], 0, 1, 0)
  }

  predicate Grants(p: PoolState, request: nat)
    requires 0 < p.page
  {
    var n := AlignUp(request, p.page);
    request <= n && FirstFit(p.free, n) < |p.free|
  }

  // The i-th free block is handed out whole for a request of n bytes.
  function GrantedWhole(p: PoolState, i: nat, n: nat): PoolState
    requires i < |p.free| && n <= p.free[i].size
  {
    p.(free := p.free[..i] + p.free[i + 1..],
       used := [p.free[i]] + p.used,
       ledger := p.ledger + n,
       slack := p.slack + (p.free[i].size - n))
  }

  // The first n bytes of the i-th free block are handed out, the remainder stays free.
  function GrantedFront(p: PoolState, i: nat, n: nat): PoolState
    requires i < |p.free| && n <= p.free[i].size
  {
    var b := p.free[i];
    p.(free := p.free[..i] + [Extent(b.addr + n, b.size - n)] + p.free[i + 1..],
       used := [Extent(b.addr, n)] + p.used,
       ledger := p.ledger + n,
       blockCount := p.blockCount + 1)
  }

  // A block is split when more than a page is left over and a node for the remainder can be had.
  function Granted(p: PoolState, i: nat, n: nat, callocOk: bool): PoolState
    requires i < |p.free| && n <= p.free[i].size
  {
    if n + p.page < p.free[i].size && callocOk then GrantedFront(p, i, n) else GrantedWhole(p, i, n)
  }

  function Alloc(p: PoolState, request: nat, callocOk: bool): PoolState
    requires 0 < p.page
  {
    if !Grants(p, request) then p else
      var n := AlignUp(request, p.page);
      Granted(p, FirstFit(p.free, n), n, callocOk)
  }

  // Join b with the first block of the list after it, if they touch.
  function JoinRight(b: Extent, right: seq<Extent>): seq<Extent> {
    if right != [] && b.End() == right[0].addr
    then [Extent(b.addr, b.size + right[0].size)] + right[1..]
    else [b] + right
  }

  // Join the last block of left with the first block of right, if they touch.
  function JoinLeft(left: seq<Extent>, right: seq<Extent>): seq<Extent>
    requires right != []
  {
    if left != [] && left[|left| - 1].End() == right[0].addr
    then left[..|left| - 1]
         + [Extent(left[|left| - 1].addr, left[|left| - 1].size + right[0].size)]
         + right[1..]
    else left + right
  }

  // The i-th block joined with the one after it, if they touch.
  function JoinAt(s: seq<Extent>, i: nat): seq<Extent>
    requires i < |s|
  {
    if i + 1 < |s| && s[i].End() == s[i + 1].addr
    then s[..i] + [Extent(s[i].addr, s[i].size + s[i + 1].size)] + s[i + 2..]
    else s
  }

  function Release(free: seq<Extent>, b: Extent): seq<Extent> {
    var i := InsertPos(free, b.addr);
    JoinLeft(free[..i], JoinRight(b, free[i..]))
  }

  function FreeAt(p: PoolState, k: nat): PoolState
    requires k < |p.used|
  {
    var b := p.used[k];
    var free' := Release(p.free, b);
    p.(free := free',
       used := p.used[..k] + p.used[k + 1..],
       ledger := p.ledger - b.size,
       blockCount := p.blockCount - (|p.free| + 1 - |free'|))
  }

  function Free(p: PoolState, addr: nat): PoolState {
    var k := Find(p.used, addr);
    if k < |p.used| then FreeAt(p, k) else p
  }

  // pool_free on pool p, given the k-th live block of another pool q.  The block enters p's free list; and
  // if it was first on q's used list, p's own used list is replaced by what follows it there.
  function FreeForeign(p: PoolState, q: PoolState, k: nat): PoolState
    requires k < |q.used|
  {
    var b := q.used[k];
    var free' := Release(p.free, b);
    p.(free := free',
       used := if k == 0 then q.used[1..] else p.used,
       ledger := p.ledger - b.size,
       blockCount := p.blockCount - (|p.free| + 1 - |free'|))
  }

  // What is left of q: the allocated blocks that its used list still leads to.
  function Robbed(q: PoolState, k: nat): PoolState
    requires k < |q.used|
  {
    q.(used := if k == 0 then [] else q.used[..k] + q.used[k + 1..])
  }

  function Step(p: PoolState, op: Op): PoolState
    requires 0 < p.page
  {
    match op
    case AllocOp(request, ok) => if request == 0 then p else Alloc(p, request, ok)
    case FreeOp(addr) => Free(p, addr)
  }

  function Run(p: PoolState, ops: seq<Op>): (q: PoolState)
    requires 0 < p.page
    ensures q.page == p.page && q.base == p.base && q.total == p.total
    decreases |ops|
  {
    if ops == [] then p else Run(Step(p, ops[0]), ops[1..])
  }

  // ---------------------------------------------------------------- the invariant

  // The configuration the allocator is given: nothing in the pool comes near the end of the word.
  ghost predicate Configured(p: PoolState) {
    0 < p.page && p.base + p.total + p.page < WORD
  }

  // Every address of the pool lies in exactly one block, every other address in none.
  ghost predicate Tiled(p: PoolState) {
    forall x: int :: Cover(p.free, x) + Cover(p.used, x) ==
                     if p.base <= x < p.base + p.total then 1 else 0
  }

  ghost predicate OnPage(p: PoolState, addr: nat)
    requires 0 < p.page
  {
    p.base <= addr && (addr - p.base) % p.page == 0
  }

  ghost predicate PageAligned(p: PoolState, s: seq<Extent>)
    requires 0 < p.page
  {
    forall i :: 0 <= i < |s| ==> OnPage(p, s[i].addr)
  }

  ghost predicate Shaped(p: PoolState) {
    && Canonical(p.free)
    && NonEmpty(p.used)
    && (if p.total == 0 then p.free == [Extent(p.base, 0)] && p.used == [] else NonEmpty(p.free))
  }

  ghost predicate Counted(p: PoolState) {
    && p.blockCount == |p.free| + |p.used|
    && Bytes(p.free) + Bytes(p.used) == p.total
  }

  // The counter falls short of the live bytes by all slack ever granted.
  ghost predicate Accounted(p: PoolState) {
    p.ledger == Bytes(p.used) - p.slack
  }

  ghost predicate Inv(p: PoolState) {
    Configured(p) && Tiled(p) && Shaped(p) && Counted(p) && Accounted(p)
  }

  // Kept apart from Inv: nothing else depends on it.
  ghost predicate StartsAligned(p: PoolState)
    requires 0 < p.page
  {
    PageAligned(p, p.free) && PageAligned(p, p.used)
  }
}
