/**
 What the allocator promises beyond its invariant: the free list is a function of the live
 ranges, first fit takes the lowest address and wastes little, fragmentation is bounded by the
 number of live blocks, and the usage counter drifts by exactly the slack granted.
 */
module PoolTheorems {
  import opened Words
  import opened Extents
  import opened PoolSpec
  import opened PoolInvariant

  // ---------------------------------------------------------------- canonical form

  /** The free list is determined by the live ranges alone, whatever the history was. */
  lemma FreeListDetermined(p: PoolState, q: PoolState)
    requires Inv(p) && Inv(q) && p.base == q.base && p.total == q.total
    requires SameCover(p.used, q.used)
    ensures p.free == q.free
  {
    if p.total != 0 {
      forall x: int ensures Cover(p.free, x) == Cover(q.free, x) {
        assert Cover(p.used, x) == Cover(q.used, x);
        assert Cover(p.free, x) + Cover(p.used, x) == Cover(q.free, x) + Cover(q.used, x);
      }
      CanonicalUnique(p.free, q.free);
    }
  }

  // The canonical list of the same addresses.
  ghost function Collect(s: seq<Extent>): seq<Extent> {
    if s == [] then [] else Release(Collect(s[1..]), s[0])
  }

  ghost predicate Disjoint(s: seq<Extent>) {
    forall x: int :: Cover(s, x) <= 1
  }

  lemma {:induction false} CollectCovers(s: seq<Extent>, x: int)
    ensures Cover(Collect(s), x) == Cover(s, x) && Bytes(Collect(s)) == Bytes(s)
  {
    if s != [] {
      CollectCovers(s[1..], x);
      ReleaseCovers(Collect(s[1..]), s[0], x);
      hide Release;
      CoverOne(s[0], x);
    }
  }

  lemma {:induction false} CollectCanonical(s: seq<Extent>)
    requires Disjoint(s) && NonEmpty(s)
    ensures Canonical(Collect(s)) && NonEmpty(Collect(s))
  {
    if s != [] {
      var rest := s[1..];
      forall x: int ensures Cover(rest, x) <= 1 && (s[0].Has(x) ==> Cover(Collect(rest), x) == 0) {
        assert Cover(s, x) <= 1;
        CollectCovers(rest, x);
      }
      hide Release, Cover;
      CollectCanonical(rest);
      ReleaseCanonical(Collect(rest), s[0]);
    }
  }

  /** Two lists of disjoint blocks that cover the same addresses have as many bytes. */
  lemma BytesDetermined(s: seq<Extent>, t: seq<Extent>)
    requires Disjoint(s) && NonEmpty(s) && Disjoint(t) && NonEmpty(t) && SameCover(s, t)
    ensures Bytes(s) == Bytes(t)
  {
    hide Cover, Bytes, Collect;
    CollectCanonical(s);
    CollectCanonical(t);
    CollectCovers(s, 0);
    CollectCovers(t, 0);
    forall x: int ensures Cover(Collect(s), x) == Cover(Collect(t), x) {
      CollectCovers(s, x);
      CollectCovers(t, x);
    }
    CanonicalUnique(Collect(s), Collect(t));
  }

  /** With nothing live the pool is one free block again, as after initialisation. */
  lemma NothingLive(p: PoolState)
    requires Inv(p) && p.used == []
    ensures p.free == Init(p.base, p.total, p.page).free && p.blockCount == 1
  {
    var q := Init(p.base, p.total, p.page);
    InitInv(p.base, p.total, p.page);
    FreeListDetermined(p, q);
  }

  // After a release the free list is that of any other pool with the same live blocks.
  lemma FreeReaches(q: PoolState, k: nat, p: PoolState)
    requires Inv(q) && Inv(p) && q.base == p.base && q.total == p.total
    requires k < |q.used| && p.used == q.used[..k] + q.used[k + 1..]
    ensures var r := FreeAt(q, k);
            && r.free == p.free && r.used == p.used && r.blockCount == p.blockCount
            && r.ledger == Bytes(p.used) - q.slack
  {
    FreeKeepsInv(q, k);
    FreeListDetermined(FreeAt(q, k), p);
  }

  /** Releasing a block just granted restores both lists and the block count; the usage counter is
      left short by the slack of the grant. */
  lemma AllocThenFree(p: PoolState, request: nat, ok: bool)
    requires Inv(p) && 0 < request < WORD && Grants(p, request)
    ensures var q := Alloc(p, request, ok);
            var r := FreeAt(q, 0);
            && r == Free(q, q.used[0].addr)
            && r.free == p.free && r.used == p.used && r.blockCount == p.blockCount
            && r.ledger == p.ledger - (q.slack - p.slack)
  {
    var q := Alloc(p, request, ok);
    AllocKeepsInv(p, request, ok);
    assert q.used[..0] + q.used[1..] == p.used;
    FreeReaches(q, 0, p);
  }

  // The blocks of s that do not start at one of the given addresses, in order.
  ghost function Without(s: seq<Extent>, gone: set<nat>): seq<Extent> {
    if s == [] then [] else (if s[0].addr in gone then [] else [s[0]]) + Without(s[1..], gone)
  }

  lemma {:induction false} WithoutAbsent(s: seq<Extent>, gone: set<nat>)
    requires forall i :: 0 <= i < |s| ==> s[i].addr !in gone
    ensures Without(s, gone) == s
  {
    if s != [] {
      WithoutAbsent(s[1..], gone);
    }
  }

  // Removing the first block found at an address removes every block at that address.
  lemma {:induction false} WithoutOne(s: seq<Extent>, addr: nat)
    requires DistinctStarts(s)
    ensures var k := Find(s, addr);
            Without(s, {addr}) == if k < |s| then s[..k] + s[k + 1..] else s
  {
    if s != [] {
      if s[0].addr == addr {
        WithoutAbsent(s[1..], {addr});
      } else {
        WithoutOne(s[1..], addr);
        var k := Find(s[1..], addr);
        if k < |s[1..]| {
          assert s[..k + 1] + s[k + 2..] == [s[0]] + (s[1..][..k] + s[1..][k + 1..]);
        }
      }
    }
  }

  lemma {:induction false} WithoutTwice(s: seq<Extent>, a: set<nat>, b: set<nat>)
    ensures Without(Without(s, a), b) == Without(s, a + b)
  {
    if s != [] {
      WithoutTwice(s[1..], a, b);
      if s[0].addr !in a {
        assert Without(s, a) == [s[0]] + Without(s[1..], a);
      } else {
        assert Without(s, a) == Without(s[1..], a);
      }
    }
  }

  function FreeAll(p: PoolState, addrs: seq<nat>): PoolState
    decreases |addrs|
  {
    if addrs == [] then p else FreeAll(Free(p, addrs[0]), addrs[1..])
  }

  ghost function Elements(addrs: seq<nat>): set<nat> { set a | a in addrs }

  lemma FreeKeepsLive(p: PoolState, addr: nat)
    requires Inv(p)
    ensures var q := Free(p, addr);
            && Inv(q)
            && q.used == Without(p.used, {addr})
            && q.base == p.base && q.total == p.total && q.page == p.page && q.slack == p.slack
  {
    LiveStartsDistinct(p);
    WithoutOne(p.used, addr);
    StepKeepsInv(p, FreeOp(addr));
  }

  lemma ElementsSplit(addrs: seq<nat>)
    requires addrs != []
    ensures Elements(addrs) == {addrs[0]} + Elements(addrs[1..])
  {
    assert addrs == [addrs[0]] + addrs[1..];
  }

  // Only `used`, and what the invariant derives from it, can depend on the releases.
  lemma {:induction false} FreeAllKeeps(p: PoolState, addrs: seq<nat>)
    requires Inv(p)
    ensures var q := FreeAll(p, addrs);
            && Inv(q)
            && q.used == Without(p.used, Elements(addrs))
            && q.base == p.base && q.total == p.total && q.page == p.page && q.slack == p.slack
    decreases |addrs|
  {
    if addrs == [] {
      WithoutAbsent(p.used, Elements(addrs));
    } else {
      FreeKeepsLive(p, addrs[0]);
      FreeAllKeeps(Free(p, addrs[0]), addrs[1..]);
      WithoutTwice(p.used, {addrs[0]}, Elements(addrs[1..]));
      ElementsSplit(addrs);
    }
  }

  // Two pools with the same live blocks and the same slack are equal in every field.
  lemma SameLiveSameState(q: PoolState, r: PoolState)
    requires Inv(q) && Inv(r) && q.used == r.used && q.slack == r.slack
    requires q.base == r.base && q.total == r.total && q.page == r.page
    ensures q == r
  {
    FreeListDetermined(q, r);
  }

  /** Releasing the same blocks in any two orders reaches the same pool: lists, counter and all. */
  lemma FreeOrderIrrelevant(p: PoolState, order: seq<nat>, order': seq<nat>)
    requires Inv(p) && Elements(order) == Elements(order')
    ensures FreeAll(p, order) == FreeAll(p, order')
  {
    FreeAllKeeps(p, order);
    FreeAllKeeps(p, order');
    SameLiveSameState(FreeAll(p, order), FreeAll(p, order'));
  }

  // ---------------------------------------------------------------- first fit

  /** A granted block is the lowest-addressed free block that fits (or its front part), it is at
      least as large as the request and, unless the node for the remainder could not be
      allocated, less than two pages larger. */
  lemma GrantIsLowestFit(p: PoolState, request: nat, ok: bool)
    requires Inv(p) && 0 < request < WORD && Grants(p, request)
    ensures var g := Alloc(p, request, ok).used[0];
            && request <= g.size
            && (ok ==> g.size < request + 2 * p.page)
            && (exists i :: 0 <= i < |p.free| && p.free[i].addr == g.addr && g.size <= p.free[i].size)
            && forall j :: 0 <= j < |p.free| && AlignUp(request, p.page) <= p.free[j].size
                           ==> g.addr <= p.free[j].addr
  {
    GrantSize(p, request);
    var n := AlignUp(request, p.page);
    var i := FirstFit(p.free, n);
    assert p.free[i].addr == Alloc(p, request, ok).used[0].addr;
    forall j | 0 <= j < |p.free| && n <= p.free[j].size ensures p.free[i].addr <= p.free[j].addr {
      assert i <= j;
    }
  }

  // ---------------------------------------------------------------- fragmentation

  // A live block starts exactly where a free block, other than the last, ends.
  lemma GapOwner(p: PoolState, i: nat) returns (k: nat)
    requires Inv(p) && i < |p.free| - 1
    ensures k < |p.used| && p.used[k].addr == p.free[i].End()
  {
    var x := p.free[i].End();
    AllocBlockInPool(p, i + 1);
    AllocBlockInPool(p, i);
    CoverZero(p.free, x) by {
      forall j | 0 <= j < |p.free| ensures !p.free[j].Has(x) {
        assert j < i || j == i || i < j;
      }
    }
    assert Cover(p.free, x) + Cover(p.used, x) == 1;
    k := CoverWitness(p.used, x);
    if p.used[k].addr < x {
      CoveredOnce(p, x - 1);
      CoverAtLeast(p.used, k, x - 1);
      CoverAtLeast(p.free, i, x - 1);
    }
  }

  lemma {:induction false} SizeOfElements(s: seq<nat>)
    ensures |Elements(s)| <= |s|
    ensures (forall i, j :: 0 <= i < j < |s| ==> s[i] != s[j]) ==> |Elements(s)| == |s|
  {
    if s != [] {
      SizeOfElements(s[1..]);
      assert s == [s[0]] + s[1..];
      assert Elements(s) == {s[0]} + Elements(s[1..]);
    }
  }

  lemma {:induction false} SubsetSize(a: set<nat>, b: set<nat>)
    requires a <= b
    ensures |a| <= |b|
  {
    if a != {} {
      var x :| x in a;
      SubsetSize(a - {x}, b - {x});
    }
  }

  /** Free blocks never outnumber live blocks by more than one. */
  lemma FreeAtMostUsedPlusOne(p: PoolState)
    requires Inv(p)
    ensures |p.free| <= |p.used| + 1
  {
    if 1 < |p.free| {
      var ends := seq(|p.free| - 1, i requires 0 <= i < |p.free| => p.free[i].End());
      var starts := seq(|p.used|, k requires 0 <= k < |p.used| => p.used[k].addr);
      forall i | 0 <= i < |ends| ensures ends[i] in starts {
        var k := GapOwner(p, i);
        assert starts[k] == ends[i];
      }
      SizeOfElements(ends);
      SizeOfElements(starts);
      SubsetSize(Elements(ends), Elements(starts));
    }
  }

  lemma {:induction false} BytesAtMost(s: seq<Extent>, most: nat)
    requires forall i :: 0 <= i < |s| ==> s[i].size <= most
    ensures Bytes(s) <= |s| * most
  {
    if s != [] {
      BytesAtMost(s[1..], most);
    }
  }

  lemma NoFitNoGrant(p: PoolState, request: nat)
    requires Configured(p) && 0 < request && request + p.page - 1 < WORD && !Grants(p, request)
    ensures 0 < AlignUp(request, p.page)
    ensures forall i :: 0 <= i < |p.free| ==> p.free[i].size < AlignUp(request, p.page)
  {
    AlignUpCorrect(request, p.page);
  }

  lemma MulMonotonic(a: nat, b: nat, c: nat)
    requires a <= b
    ensures a * c <= b * c
  {
  }

  /** A request that does not overflow is refused only when the free bytes are few: at most one
      byte short of the aligned size for each live block and one more. */
  lemma RefusalBound(p: PoolState, request: nat)
    requires Inv(p) && 0 < request && request + p.page - 1 < WORD && !Grants(p, request)
    ensures Bytes(p.free) <= (|p.used| + 1) * (AlignUp(request, p.page) - 1)
  {
    NoFitNoGrant(p, request);
    var most := AlignUp(request, p.page) - 1;
    BytesAtMost(p.free, most);
    FreeAtMostUsedPlusOne(p);
    MulMonotonic(|p.free|, |p.used| + 1, most);
  }

  // ---------------------------------------------------------------- the usage counter

  // The slack a step grants: only an allocation that hands a block out whole grants any.
  ghost function StepSlack(p: PoolState, op: Op): nat
    requires 0 < p.page
  {
    if op.AllocOp? && op.request != 0 && Grants(p, op.request) then
      var n := AlignUp(op.request, p.page);
      var b := p.free[FirstFit(p.free, n)];
      if n + p.page < b.size && op.callocOk then 0 else b.size - n
    else 0
  }

  ghost function RunSlack(p: PoolState, ops: seq<Op>): nat
    requires 0 < p.page
    decreases |ops|
  {
    if ops == [] then 0 else StepSlack(p, ops[0]) + RunSlack(Step(p, ops[0]), ops[1..])
  }

  /** The slack of a state is the sum of what the grants of the run that led to it were over. */
  lemma {:induction false} SlackOfRun(p: PoolState, ops: seq<Op>)
    requires 0 < p.page
    ensures Run(p, ops).slack == p.slack + RunSlack(p, ops)
    decreases |ops|
  {
    if ops != [] {
      SlackOfRun(Step(p, ops[0]), ops[1..]);
    }
  }

  // Exactness of a counter that lost `slack`, when the true value fits in a word.
  lemma WrapExact(used: nat, slack: nat, total: nat)
    requires used <= total < WORD
    ensures Wrap(used - slack) == used <==> slack % WORD == 0
    ensures Wrap(total - Wrap(used - slack)) == Wrap(total - used + slack)
  {
  }

  /** In every reachable state `used_size` is the live bytes less all slack granted so far, modulo
      the word; so it is exact iff that slack is a multiple of the word size.  What
      `cb_mem_get_info` reports as free is the free bytes plus that slack. */
  lemma UsageDrift(q: PoolState)
    requires Inv(q)
    ensures Wrap(q.ledger) == Bytes(q.used) <==> q.slack % WORD == 0
    ensures Wrap(q.total - Wrap(q.ledger)) == Wrap(Bytes(q.free) + q.slack)
  {
    WrapExact(Bytes(q.used), q.slack, q.total);
  }

  lemma RunTwo(p: PoolState, a: Op, b: Op)
    requires 0 < p.page
    ensures Run(p, [a, b]) == Step(Step(p, a), b)
  {
    assert [a, b][1..] == [b] && [b][1..] == [];
    assert Run(Step(p, a), [b]) == Run(Step(Step(p, a), b), []);
  }

  lemma FreeOnly(q: PoolState)
    requires |q.used| == 1
    ensures Free(q, q.used[0].addr).used == []
    ensures Free(q, q.used[0].addr).ledger == q.ledger - q.used[0].size
    ensures Free(q, q.used[0].addr).total == q.total
  {
    assert Find(q.used, q.used[0].addr) == 0;
  }

  // A block no larger than the aligned request and a page is handed out whole.
  lemma WholeBlockGrant(p: PoolState, request: nat, n: nat)
    requires 0 < p.page && 0 < request <= n == AlignUp(request, p.page)
    requires |p.free| == 1 && n <= p.free[0].size <= n + p.page && p.used == []
    ensures var q := Step(p, AllocOp(request, true));
            && q.used == [p.free[0]] && q.ledger == p.ledger + n && q.total == p.total
  {
    assert FirstFit(p.free, n) == 0;
  }

  lemma GrantThenRelease(p: PoolState, request: nat, n: nat)
    requires 0 < p.page && 0 < request <= n == AlignUp(request, p.page)
    requires |p.free| == 1 && n <= p.free[0].size <= n + p.page && p.used == []
    ensures var q := Run(p, [AllocOp(request, true), FreeOp(p.free[0].addr)]);
            && q.used == [] && q.ledger == p.ledger + n - p.free[0].size && q.total == p.total
  {
    RunTwo(p, AllocOp(request, true), FreeOp(p.free[0].addr));
    WholeBlockGrant(p, request, n);
    FreeOnly(Step(p, AllocOp(request, true)));
  }

  lemma ExampleNumbers()
    ensures AlignUp(1, 4096) == 4096
    ensures Wrap(0 - 4096) == WORD - 4096 && Wrap(8192 - (WORD - 4096)) == 12288
  {
  }

  /** The drift is real: on a pool of two pages, one small allocation and its release leave
      `used_size` one page below zero, and more free memory is reported than the pool has. */
  lemma UsageDriftExample(p: PoolState)
    requires p.page == 4096 && p.total == 8192 && p.ledger == 0 && p.used == []
    requires |p.free| == 1 && p.free[0].size == 8192
    ensures var q := Run(p, [AllocOp(1, true), FreeOp(p.free[0].addr)]);
            && q.used == []
            && Wrap(q.ledger) == WORD - 4096
            && q.total < Wrap(q.total - Wrap(q.ledger))
  {
    ExampleNumbers();
    GrantThenRelease(p, 1, 4096);
  }
}
