/** The pool invariant holds initially and every allocation and every release keeps it. */
module PoolInvariant {
  import opened Words
  import opened Extents
  import opened PoolSpec

  // ---------------------------------------------------------------- releasing into a free list

  // b can be put back: it overlaps no block of the list.
  ghost predicate Clear(free: seq<Extent>, b: Extent) {
    forall x: int :: b.Has(x) ==> Cover(free, x) == 0
  }

  // A clear block lies strictly between its neighbours at the insertion point.
  lemma InsertSeparates(free: seq<Extent>, b: Extent)
    requires Canonical(free) && NonEmpty(free) && 0 < b.size && Clear(free, b)
    ensures forall j :: 0 <= j < InsertPos(free, b.addr) ==> free[j].End() <= b.addr
    ensures forall j :: InsertPos(free, b.addr) <= j < |free| ==> b.End() <= free[j].addr
  {
    var i := InsertPos(free, b.addr);
    forall j | 0 <= j < i ensures free[j].End() <= b.addr {
      if b.addr < free[j].End() {
        CoverAtLeast(free, j, b.addr);
        assert b.Has(b.addr);
      }
    }
    forall j | i <= j < |free| ensures b.End() <= free[j].addr {
      if free[j].addr < b.End() {
        CoverAtLeast(free, j, free[j].addr);
        assert b.Has(free[j].addr);
      }
    }
  }

  lemma CoveredOnce(p: PoolState, x: int)
    requires Tiled(p)
    ensures Cover(p.free, x) + Cover(p.used, x) == if p.base <= x < p.base + p.total then 1 else 0
  {
  }

  lemma JoinRightCovers(b: Extent, right: seq<Extent>, x: int)
    ensures Cover(JoinRight(b, right), x) == Cover([b], x) + Cover(right, x)
    ensures Bytes(JoinRight(b, right)) == b.size + Bytes(right)
  {
    assert JoinRight(b, right)[1..] == if right != [] && b.End() == right[0].addr then right[1..] else right;
    CoverOne(b, x);
  }

  lemma JoinLeftCovers(left: seq<Extent>, right: seq<Extent>, x: int)
    requires right != []
    ensures Cover(JoinLeft(left, right), x) == Cover(left, x) + Cover(right, x)
    ensures Bytes(JoinLeft(left, right)) == Bytes(left) + Bytes(right)
  {
    if left != [] && left[|left| - 1].End() == right[0].addr {
      var k := |left| - 1;
      assert left == left[..k] + [left[k]];
      assert JoinLeft(left, right) == left[..k] + JoinRight(left[k], right);
      CoverConcat(left[..k], [left[k]], x);
      CoverConcat(left[..k], JoinRight(left[k], right), x);
      BytesConcat(left[..k], [left[k]]);
      BytesConcat(left[..k], JoinRight(left[k], right));
      JoinRightCovers(left[k], right, x);
      assert [left[k]][1..] == [];
    } else {
      CoverConcat(left, right, x);
      BytesConcat(left, right);
    }
  }

  lemma ReleaseCovers(free: seq<Extent>, b: Extent, x: int)
    ensures Cover(Release(free, b), x) == Cover(free, x) + Cover([b], x)
    ensures Bytes(Release(free, b)) == Bytes(free) + b.size
  {
    var i := InsertPos(free, b.addr);
    JoinRightCovers(b, free[i..], x);
    JoinLeftCovers(free[..i], JoinRight(b, free[i..]), x);
    assert free == free[..i] + free[i..];
    CoverConcat(free[..i], free[i..], x);
    BytesConcat(free[..i], free[i..]);
  }

  lemma JoinRightCanonical(b: Extent, right: seq<Extent>)
    requires Canonical(right) && NonEmpty(right) && 0 < b.size
    requires forall j :: 0 <= j < |right| ==> b.End() <= right[j].addr
    ensures Canonical(JoinRight(b, right)) && NonEmpty(JoinRight(b, right))
    ensures forall j :: 0 < j < |JoinRight(b, right)| ==> b.End() < JoinRight(b, right)[j].addr
  {
    forall j | 0 < j < |right| ensures b.End() < right[j].addr {
      assert b.End() <= right[0].addr;
    }
  }

  // A canonical list, a gap, and a canonical list.
  lemma CanonicalConcat(a: seq<Extent>, b: seq<Extent>)
    requires Canonical(a) && NonEmpty(a) && Canonical(b) && NonEmpty(b)
    requires a != [] && b != [] ==> a[|a| - 1].End() < b[0].addr
    ensures Canonical(a + b) && NonEmpty(a + b)
  {
    forall i, j | 0 <= i < |a| && 0 <= j < |b| ensures a[i].End() < b[j].addr {
      assert i < |a| - 1 ==> a[i].End() < a[|a| - 1].addr;
      assert 0 < j ==> b[0].End() < b[j].addr;
    }
  }

  // Stretching the first block of a canonical list down to a lower start keeps it canonical.
  lemma HeadStretched(right: seq<Extent>, addr: nat)
    requires Canonical(right) && NonEmpty(right) && right != [] && addr <= right[0].addr
    ensures var t := [Extent(addr, right[0].End() - addr)] + right[1..]; Canonical(t) && NonEmpty(t)
  {
  }

  lemma PrefixCanonical(s: seq<Extent>, k: nat)
    requires Canonical(s) && NonEmpty(s) && k < |s|
    ensures Canonical(s[..k]) && NonEmpty(s[..k]) && (0 < k ==> s[k - 1].End() < s[k].addr)
  {
  }

  lemma JoinLeftCanonical(left: seq<Extent>, right: seq<Extent>)
    requires Canonical(left) && NonEmpty(left) && Canonical(right) && NonEmpty(right) && right != []
    requires forall j :: 0 <= j < |left| ==> left[j].End() <= right[0].addr
    ensures Canonical(JoinLeft(left, right)) && NonEmpty(JoinLeft(left, right))
  {
    hide Canonical, NonEmpty;
    var k := |left| - 1;
    if left != [] && left[k].End() == right[0].addr {
      var t := [Extent(left[k].addr, right[0].End() - left[k].addr)] + right[1..];
      HeadStretched(right, left[k].addr);
      PrefixCanonical(left, k);
      CanonicalConcat(left[..k], t);
      assert JoinLeft(left, right) == left[..k] + t;
    } else {
      CanonicalConcat(left, right);
    }
  }

  // Coalescing on both sides restores the canonical form.
  lemma ReleaseCanonical(free: seq<Extent>, b: Extent)
    requires Canonical(free) && NonEmpty(free) && 0 < b.size && Clear(free, b)
    ensures Canonical(Release(free, b)) && NonEmpty(Release(free, b))
  {
    InsertSeparates(free, b);
    var i := InsertPos(free, b.addr);
    JoinRightCanonical(b, free[i..]);
    JoinLeftCanonical(free[..i], JoinRight(b, free[i..]));
  }

  lemma JoinRightIsJoinAt(free: seq<Extent>, b: Extent, i: nat)
    requires i <= |free|
    ensures i < |free[..i] + [b] + free[i..]|
    ensures JoinAt(free[..i] + [b] + free[i..], i) == free[..i] + JoinRight(b, free[i..])
  {
    var s, right := free[..i] + [b] + free[i..], free[i..];
    assert s[i] == b;
    assert right != [] ==> i + 1 < |s| && s[i + 1] == right[0] && s[i + 2..] == right[1..];
    assert s[..i] == free[..i];
  }

  lemma JoinLeftIsJoinAt(left: seq<Extent>, right: seq<Extent>)
    requires right != [] && left != []
    ensures JoinLeft(left, right) == JoinAt(left + right, |left| - 1)
  {
    var s, k := left + right, |left| - 1;
    assert s[k] == left[k] && s[k + 1] == right[0];
    assert s[..k] == left[..k] && s[k + 2..] == right[1..];
  }

  // Releasing is inserting, joining with the next block, and joining with the previous one.
  lemma ReleaseSteps(free: seq<Extent>, b: Extent)
    ensures var i := InsertPos(free, b.addr);
            var joined := JoinAt(free[..i] + [b] + free[i..], i);
            i < |joined| && Release(free, b) == if i == 0 then joined else JoinAt(joined, i - 1)
  {
    var i := InsertPos(free, b.addr);
    var left, right := free[..i], JoinRight(b, free[i..]);
    assert Release(free, b) == JoinLeft(left, right);
    assert right != [];
    assert i == 0 ==> JoinLeft(left, right) == left + right;
    hide InsertPos, JoinRight, JoinLeft, JoinAt, Release;
    JoinRightIsJoinAt(free, b, i);
    if 0 < i {
      JoinLeftIsJoinAt(left, right);
    }
  }

  lemma JoinAtBefore(free: seq<Extent>, b: Extent, i: nat)
    requires i <= |free|
    ensures var joined := JoinAt(free[..i] + [b] + free[i..], i);
            i < |joined| && (0 < i ==> joined[i - 1] == free[i - 1])
  {
  }

  // Joining never creates a new start.
  lemma ReleaseStarts(free: seq<Extent>, b: Extent, k: nat)
    requires k < |Release(free, b)|
    ensures exists j :: 0 <= j < |free + [b]| && (free + [b])[j].addr == Release(free, b)[k].addr
  {
    var i := InsertPos(free, b.addr);
    var all := free + [b];
    var right := JoinRight(b, free[i..]);
    assert all[|free|] == b;
    if k < i {
      assert all[k].addr == Release(free, b)[k].addr;
    } else {
      var m := if |Release(free, b)| == i + |right| then k - i else k - i + 1;
      assert Release(free, b)[k].addr == right[m].addr;
      if m != 0 {
        var j := if |right| == |free| - i + 1 then i + m - 1 else i + m;
        assert right[m] == free[j] == all[j];
      }
    }
  }

  // ---------------------------------------------------------------- the two operations

  lemma InitInv(base: nat, total: nat, page: nat)
    requires 0 < page && base + total + page < WORD
    ensures Inv(Init(base, total, page)) && StartsAligned(Init(base, total, page))
  {
    var p := Init(base, total, page);
    forall x: int ensures Cover(p.free, x) + Cover(p.used, x) ==
                          if p.base <= x < p.base + p.total then 1 else 0 {
      CoverOne(p.free[0], x);
    }
    assert p.free[1..] == [];
    RemainderUnique(0, page, 0, 0);
  }

  // A whole number of pages after an aligned start is another aligned start.
  lemma AlignedAfter(p: PoolState, addr: nat, n: nat)
    requires 0 < p.page && OnPage(p, addr) && n % p.page == 0
    ensures OnPage(p, addr + n)
  {
    SumMod(addr - p.base, n, p.page);
  }

  // Only non-zero requests reach the pool; they all become at least one page.
  lemma GrantSize(p: PoolState, request: nat)
    requires Configured(p) && 0 < request < WORD && Grants(p, request)
    ensures var n := AlignUp(request, p.page); 0 < n && n % p.page == 0 && request <= n < request + p.page
  {
    AlignUpCorrect(request, p.page);
  }

  lemma AllocBlockInPool(p: PoolState, i: nat)
    requires Inv(p) && p.total > 0 && i < |p.free|
    ensures p.base <= p.free[i].addr && p.free[i].End() <= p.base + p.total
  {
    var b := p.free[i];
    CoverAtLeast(p.free, i, b.addr);
    CoverAtLeast(p.free, i, b.End() - 1);
    assert Cover(p.free, b.addr) + Cover(p.used, b.addr) <= 1;
    assert Cover(p.free, b.End() - 1) + Cover(p.used, b.End() - 1) <= 1;
  }

  lemma InsertPosIs(free: seq<Extent>, addr: nat, i: nat)
    requires i <= |free| && (i < |free| ==> addr <= free[i].addr)
    requires forall j :: 0 <= j < i ==> free[j].addr < addr
    ensures InsertPos(free, addr) == i
  {
  }

  // The block that is found lies well below the end of the address space.
  lemma GrantFits(p: PoolState, request: nat, i: nat)
    requires Inv(p) && 0 < request < WORD && Grants(p, request)
    requires i == FirstFit(p.free, AlignUp(request, p.page))
    ensures var n := AlignUp(request, p.page);
            n + p.page < WORD && p.free[i].addr + n < WORD
  {
    GrantSize(p, request);
    AllocBlockInPool(p, i);
  }

  lemma WholeCovers(p: PoolState, i: nat, n: nat, x: int)
    requires i < |p.free| && n <= p.free[i].size
    ensures var q := GrantedWhole(p, i, n);
            && Cover(q.free, x) + Cover(q.used, x) == Cover(p.free, x) + Cover(p.used, x)
            && Bytes(q.free) + Bytes(q.used) == Bytes(p.free) + Bytes(p.used)
  {
    RemoveAt(p.free, i, x);
    CoverConcat([p.free[i]], p.used, x);
    assert ([p.free[i]] + p.used)[1..] == p.used;
  }

  lemma FrontCovers(p: PoolState, i: nat, n: nat, x: int)
    requires i < |p.free| && n <= p.free[i].size
    ensures var q := GrantedFront(p, i, n);
            && Cover(q.free, x) + Cover(q.used, x) == Cover(p.free, x) + Cover(p.used, x)
            && Bytes(q.free) + Bytes(q.used) == Bytes(p.free) + Bytes(p.used)
  {
    var q, b := GrantedFront(p, i, n), p.free[i];
    var front, rest := Extent(b.addr, n), Extent(b.addr + n, b.size - n);
    RemoveAt(p.free, i, x);
    RemoveAt(q.free, i, x);
    assert q.free[i] == rest && q.free[..i] + q.free[i + 1..] == p.free[..i] + p.free[i + 1..];
    CoverOne(b, x);
    CoverOne(front, x);
    CoverOne(rest, x);
    CoverConcat([front], p.used, x);
    assert ([front] + p.used)[1..] == p.used;
  }

  lemma AllocCovers(p: PoolState, request: nat, ok: bool, x: int)
    requires Configured(p) && 0 < request < WORD && Grants(p, request)
    ensures var q := Alloc(p, request, ok);
            && Cover(q.free, x) + Cover(q.used, x) == Cover(p.free, x) + Cover(p.used, x)
            && Bytes(q.free) + Bytes(q.used) == Bytes(p.free) + Bytes(p.used)
  {
    hide GrantedWhole, GrantedFront, FirstFit, AlignUp, Cover, Bytes;
    var n := AlignUp(request, p.page);
    var i := FirstFit(p.free, n);
    WholeCovers(p, i, n, x);
    FrontCovers(p, i, n, x);
  }

  lemma AllocTiled(p: PoolState, request: nat, ok: bool)
    requires Configured(p) && Tiled(p) && Counted(p) && 0 < request < WORD && Grants(p, request)
    ensures Tiled(Alloc(p, request, ok)) && Counted(Alloc(p, request, ok))
  {
    var q := Alloc(p, request, ok);
    forall x: int ensures Cover(q.free, x) + Cover(q.used, x) ==
                          if q.base <= x < q.base + q.total then 1 else 0 {
      AllocCovers(p, request, ok, x);
      assert Cover(p.free, x) + Cover(p.used, x) == if p.base <= x < p.base + p.total then 1 else 0;
    }
    AllocCovers(p, request, ok, 0);
  }

  lemma AllocShaped(p: PoolState, request: nat, ok: bool)
    requires Configured(p) && Shaped(p) && 0 < request < WORD && Grants(p, request)
    ensures Shaped(Alloc(p, request, ok))
  {
    GrantSize(p, request);
  }

  lemma AllocAccounted(p: PoolState, request: nat, ok: bool)
    requires Configured(p) && Accounted(p) && 0 < request < WORD && Grants(p, request)
    ensures Accounted(Alloc(p, request, ok))
  {
    var q := Alloc(p, request, ok);
    assert q.used[1..] == p.used;
  }

  lemma AllocAligned(p: PoolState, request: nat, ok: bool)
    requires Configured(p) && 0 < request < WORD && Grants(p, request)
    requires StartsAligned(p)
    ensures StartsAligned(Alloc(p, request, ok))
  {
    GrantSize(p, request);
    var n := AlignUp(request, p.page);
    var b := p.free[FirstFit(p.free, n)];
    AlignedAfter(p, b.addr, n);
  }

  lemma AllocKeepsInv(p: PoolState, request: nat, ok: bool)
    requires Inv(p) && 0 < request < WORD
    ensures Inv(Alloc(p, request, ok))
  {
    if Grants(p, request) {
      AllocTiled(p, request, ok);
      AllocShaped(p, request, ok);
      AllocAccounted(p, request, ok);
    }
  }

  // A used block overlaps no free block.
  lemma UsedIsClear(p: PoolState, k: nat)
    requires Tiled(p) && k < |p.used|
    ensures Clear(p.free, p.used[k])
  {
    forall x: int | p.used[k].Has(x) ensures Cover(p.free, x) == 0 {
      CoverAtLeast(p.used, k, x);
      assert Cover(p.free, x) + Cover(p.used, x) <= 1;
    }
  }

  ghost predicate DistinctStarts(s: seq<Extent>) {
    forall i, j :: 0 <= i < j < |s| ==> s[i].addr != s[j].addr
  }

  lemma LiveStartsDistinct(p: PoolState)
    requires Inv(p)
    ensures DistinctStarts(p.used)
  {
    forall i, j | 0 <= i < j < |p.used| ensures p.used[i].addr != p.used[j].addr {
      if p.used[i].addr == p.used[j].addr {
        CoveredOnce(p, p.used[i].addr);
        DisjointWhenSingle(p.used, i, j, p.used[i].addr);
      }
    }
  }

  // So a block's address names it.
  lemma FindLive(p: PoolState, k: nat)
    requires Inv(p) && k < |p.used|
    ensures Find(p.used, p.used[k].addr) == k
  {
    LiveStartsDistinct(p);
  }

  lemma UsedBlockInPool(p: PoolState, k: nat)
    requires Inv(p) && k < |p.used|
    ensures p.base <= p.used[k].addr && p.used[k].End() <= p.base + p.total && 0 < p.total
  {
    var b := p.used[k];
    CoverAtLeast(p.used, k, b.addr);
    CoverAtLeast(p.used, k, b.End() - 1);
    CoveredOnce(p, b.addr);
    CoveredOnce(p, b.End() - 1);
  }

  lemma FreeCovers(p: PoolState, k: nat, x: int)
    requires k < |p.used|
    ensures var q := FreeAt(p, k);
            && Cover(q.free, x) + Cover(q.used, x) == Cover(p.free, x) + Cover(p.used, x)
            && Cover(q.used, x) == Cover(p.used, x) - Cover([p.used[k]], x)
            && Bytes(q.free) + Bytes(q.used) == Bytes(p.free) + Bytes(p.used)
            && Bytes(q.used) == Bytes(p.used) - p.used[k].size
  {
    ReleaseCovers(p.free, p.used[k], x);
    RemoveAt(p.used, k, x);
  }

  lemma FreeTiled(p: PoolState, k: nat)
    requires Tiled(p) && Counted(p) && k < |p.used|
    ensures Tiled(FreeAt(p, k)) && Counted(FreeAt(p, k))
  {
    var q := FreeAt(p, k);
    forall x: int ensures Cover(q.free, x) + Cover(q.used, x) ==
                          if q.base <= x < q.base + q.total then 1 else 0 {
      FreeCovers(p, k, x);
      assert Cover(p.free, x) + Cover(p.used, x) == if p.base <= x < p.base + p.total then 1 else 0;
    }
    FreeCovers(p, k, 0);
  }

  lemma FreeAccounted(p: PoolState, k: nat)
    requires Accounted(p) && k < |p.used|
    ensures Accounted(FreeAt(p, k))
  {
    FreeCovers(p, k, 0);
  }

  // Two states of one pool place pages alike.
  lemma SamePages(p: PoolState, q: PoolState, addr: nat)
    requires 0 < p.page == q.page && p.base == q.base && OnPage(p, addr)
    ensures OnPage(q, addr)
  {
  }

  lemma ReleaseAligned(p: PoolState, k: nat, j: nat)
    requires 0 < p.page && StartsAligned(p) && k < |p.used| && j < |Release(p.free, p.used[k])|
    ensures OnPage(p, Release(p.free, p.used[k])[j].addr)
  {
    hide Release, OnPage;
    var all := p.free + [p.used[k]];
    ReleaseStarts(p.free, p.used[k], j);
    var i :| 0 <= i < |all| && all[i].addr == Release(p.free, p.used[k])[j].addr;
    assert OnPage(p, all[i].addr);
  }

  lemma FreeAligned(p: PoolState, k: nat)
    requires 0 < p.page && StartsAligned(p) && k < |p.used|
    ensures StartsAligned(FreeAt(p, k))
  {
    hide Release, OnPage;
    var q := FreeAt(p, k);
    forall j | 0 <= j < |q.free| ensures OnPage(q, q.free[j].addr) {
      ReleaseAligned(p, k, j);
      SamePages(p, q, q.free[j].addr);
    }
    forall j | 0 <= j < |q.used| ensures OnPage(q, q.used[j].addr) {
      assert q.used[j] == p.used[if j < k then j else j + 1];
      SamePages(p, q, q.used[j].addr);
    }
  }

  lemma FreeKeepsInv(p: PoolState, k: nat)
    requires Inv(p) && k < |p.used|
    ensures Inv(FreeAt(p, k))
  {
    UsedIsClear(p, k);
    ReleaseCanonical(p.free, p.used[k]);
    FreeTiled(p, k);
    FreeAccounted(p, k);
  }

  // ---------------------------------------------------------------- whole runs

  ghost predicate WordSized(op: Op) { op.AllocOp? ==> op.request < WORD }

  lemma StepKeepsInv(p: PoolState, op: Op)
    requires Inv(p) && WordSized(op)
    ensures Inv(Step(p, op))
  {
    match op
    case AllocOp(request, ok) => if request != 0 { AllocKeepsInv(p, request, ok); }
    case FreeOp(addr) =>
      var k := Find(p.used, addr);
      if k < |p.used| { FreeKeepsInv(p, k); }
  }

  lemma StepKeepsAlignment(p: PoolState, op: Op)
    requires Configured(p) && StartsAligned(p) && WordSized(op)
    ensures StartsAligned(Step(p, op))
  {
    match op
    case AllocOp(request, ok) =>
      if request != 0 && Grants(p, request) { AllocAligned(p, request, ok); }
    case FreeOp(addr) =>
      var k := Find(p.used, addr);
      if k < |p.used| { FreeAligned(p, k); }
  }

  /** Every state reached from a fresh pool by any run of allocations and releases: the blocks tile
      the pool exactly, the free list is canonical, starts are page-aligned, and the block count
      and the byte accounts are the ones the lists determine. */
  lemma {:induction false} RunKeepsInv(p: PoolState, ops: seq<Op>)
    requires Inv(p) && StartsAligned(p) && forall i :: 0 <= i < |ops| ==> WordSized(ops[i])
    ensures Inv(Run(p, ops)) && StartsAligned(Run(p, ops))
    decreases |ops|
  {
    if ops != [] {
      StepKeepsInv(p, ops[0]);
      StepKeepsAlignment(p, ops[0]);
      RunKeepsInv(Step(p, ops[0]), ops[1..]);
    }
  }
}
