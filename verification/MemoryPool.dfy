/**
 The pool of memory_manager.c in the heap: block nodes linked by `next` and `prev` into an
 address-ordered free list and a last-in-first-out used list, rewired in place.  Every operation
 is proved to take the abstract pool of `PoolSpec` from its old value to the specified new one.
 */
module MemoryPool {
  import opened Words
  import opened Extents
  import opened PoolSpec
  import opened PoolInvariant
  import opened BlockList

  class Pool {
    var baseAddr: nat
    var totalSize: nat
    var pageSize: nat
    var usedSize: nat
    var freeList: Block?
    var usedList: Block?
    var blockCount: int

    // The nodes of the two lists, in list order, the abstract pool, and every node ever made.
    ghost var free: seq<Block>
    ghost var used: seq<Block>
    ghost var view: PoolState
    ghost var nodes: set<Block>

    // Both lists are well formed; the flags say which list a node is on, so they are disjoint.
    ghost predicate Wired()
      reads this`freeList, this`usedList, this`free, this`used, this`view
      reads free`next, free`prev, free`addr, free`size, free`isAllocated
      reads used`next, used`prev, used`addr, used`size, used`isAllocated
    {
      Listed(freeList, free, view.free, false) && Listed(usedList, used, view.used, true)
    }

    // The heap and the counters show the abstract pool.
    ghost predicate Sound()
      reads this, nodes`next, nodes`prev, nodes`addr, nodes`size, nodes`isAllocated
    {
      && (forall i :: 0 <= i < |free| ==> free[i] in nodes)
      && (forall i :: 0 <= i < |used| ==> used[i] in nodes)
      && Wired()
      && baseAddr == view.base && totalSize == view.total && pageSize == view.page
      && blockCount == view.blockCount && usedSize == Wrap(view.ledger)
    }

    ghost predicate Valid()
      reads this, nodes`next, nodes`prev, nodes`addr, nodes`size, nodes`isAllocated
    {
      Sound() && Inv(view)
    }

    // Every live node is one of the pool's nodes and shows its range.
    lemma UsedShown(k: nat)
      requires Valid() && k < |used|
      ensures |used| == |view.used| && used[k] in nodes && used[k].Range() == view.used[k] && used[k].isAllocated
    {
    }

    // A node is on the used list once.
    lemma UsedOnce(k: nat)
      requires Valid() && k < |used|
      ensures forall j :: 0 <= j < |used| && j != k ==> used[j] != used[k]
    {
    }

    // Following `next` from the head of the used list meets the live nodes in order.
    lemma UsedLinked()
      requires Valid()
      ensures usedList == At(used, 0) && |used| == |view.used|
      ensures forall k {:trigger used[k].next} :: 0 <= k < |used| ==> used[k].next == At(used, k + 1)
    {
    }

    // pool_init: one free block spans the pool.
    constructor (base: nat, size: nat, pageSize: nat)
      requires 0 < pageSize && base + size + pageSize < WORD
      ensures Valid() && view == Init(base, size, pageSize)
      ensures fresh(nodes)
    {
      baseAddr, totalSize, this.pageSize, usedSize := base, size, pageSize, 0;
      var block := new Block(base, size);
      freeList, usedList, blockCount := block, null, 1;
      free, used, nodes, view := [block], [], {block}, Init(base, size, pageSize);
      InitInv(base, size, pageSize);
    }

    // The two lists have no node in common, and the flag tells them apart.
    lemma Lists()
      requires Wired()
      ensures Listed(freeList, free, view.free, false) && Listed(usedList, used, view.used, true)
      ensures |free| == |view.free| && |used| == |view.used|
      ensures forall i :: 0 <= i < |free| ==> !free[i].isAllocated
      ensures forall i :: 0 <= i < |used| ==> used[i].isAllocated
      ensures forall i, j :: 0 <= i < |free| && 0 <= j < |used| ==> free[i] != used[j]
    {
    }

    // What Sound says, apart from the shape of the lists.
    lemma SoundParts()
      requires Sound()
      ensures Wired() && pageSize == view.page && |used| == |view.used|
      ensures forall i :: 0 <= i < |free| ==> free[i] in nodes
      ensures forall i :: 0 <= i < |used| ==> used[i] in nodes && used[i].Range() == view.used[i]
      ensures baseAddr == view.base && totalSize == view.total
      ensures blockCount == view.blockCount && usedSize == Wrap(view.ledger)
    {
    }

    lemma SoundAgain()
      requires Wired() && pageSize == view.page && baseAddr == view.base && totalSize == view.total
      requires forall i :: 0 <= i < |free| ==> free[i] in nodes
      requires forall i :: 0 <= i < |used| ==> used[i] in nodes
      requires blockCount == view.blockCount && usedSize == Wrap(view.ledger)
      ensures Sound()
    {
    }

    // The links of the k-th node on either list.
    lemma FreeLinks(k: nat)
      requires Wired() && k < |free|
      ensures free[k].next == At(free, k + 1) && free[k].prev == At(free, k - 1)
    {
    }

    lemma UsedLinks(k: nat)
      requires Wired() && k < |used|
      ensures used[k].next == At(used, k + 1) && used[k].prev == At(used, k - 1)
    {
    }

    lemma Rewired()
      requires Listed(freeList, free, view.free, false) && Listed(usedList, used, view.used, true)
      ensures Wired()
    {
    }

    // Link a node that is on no list into the free list, as its k-th node.
    method Place(ghost k: nat, prev: Block?, node: Block, next: Block?)
      requires Wired() && node !in free && !node.isAllocated && k <= |free|
      requires prev == At(free, k - 1) && next == At(free, k)
      modifies this`freeList, this`free, this`view, free`next, free`prev, node`next, node`prev
      ensures Wired() && free == Inserted(old(free), k, node)
      ensures view == old(view).(free := Inserted(old(view).free, k, node.Range()))
    {
      hide *;
      Lists();
      freeList := Insert(freeList, free, view.free, false, k, prev, node, next);
      free, view := Inserted(free, k, node), view.(free := Inserted(view.free, k, node.Range()));
      Rewired();
    }

    // Take the i-th node off the free list.
    method Detach(ghost i: nat, prev: Block?, block: Block)
      requires Wired() && i < |free| && block == free[i] && prev == At(free, i - 1)
      modifies this`freeList, this`free, this`view, free`next, free`prev
      ensures Wired() && free == Removed(old(free), i) && block !in free
      ensures view == old(view).(free := Removed(old(view).free, i))
    {
      hide *;
      Lists();
      freeList := Remove(freeList, free, view.free, false, i, prev, block);
      free, view := Removed(free, i), view.(free := Removed(view.free, i));
      Rewired();
    }

    // Push a node that is on no list at the front of the used list; n bytes are charged for it,
    // it is `over` bytes larger than that, and `more` nodes were made for it.
    method Attach(block: Block, ghost n: nat, ghost over: nat, ghost more: nat)
      requires Wired() && block !in free && !block.isAllocated
      modifies this`usedList, this`used, this`view
      modifies block`next, block`prev, block`isAllocated, used`next, used`prev
      ensures Wired() && used == [block] + old(used)
      ensures var p := old(view);
              view == p.(used := [block.Range()] + p.used, ledger := p.ledger + n,
                         slack := p.slack + over, blockCount := p.blockCount + more)
    {
      hide *;
      Lists();
      block.isAllocated := true;
      usedList := Push(usedList, used, view.used, true, block);
      used := [block] + used;
      view := view.(used := [block.Range()] + view.used, ledger := view.ledger + n,
                    slack := view.slack + over, blockCount := view.blockCount + more);
      Rewired();
    }

    // A free block gets another size.
    method ResizeFree(ghost k: nat, block: Block, n: nat)
      requires Wired() && k < |free| && block == free[k]
      modifies this`view, block`size
      ensures Wired() && block.size == n
      ensures view == old(view).(free := old(view).free[k := Extent(block.addr, n)])
    {
      hide *;
      Lists();
      Resize(freeList, free, view.free, false, k, block, n);
      view := view.(free := view.free[k := Extent(block.addr, n)]);
      Rewired();
    }

    // Cut the i-th free block in two: the new node for the remainder follows it in the list.
    method Split(ghost i: nat, block: Block, n: nat, remaining: Block)
      requires Wired() && i < |free| && block == free[i] && n <= block.size
      requires remaining !in free && !remaining.isAllocated
      requires remaining.Range() == Extent(block.addr + n, block.size - n)
      modifies this`freeList, this`free, this`view, free`next, free`prev, remaining`next, remaining`prev, block`size
      ensures Wired() && block.size == n && free == Inserted(old(free), i + 1, remaining)
      ensures view == old(view).(free := Inserted(old(view).free, i + 1, remaining.Range())
                                         [i := Extent(block.addr, n)])
    {
      Place(i + 1, block, remaining, block.next);
      ResizeFree(i, block, n);
    }

    // Split the i-th free block, then take its front part, now n bytes long, off the free list.
    method DetachFront(ghost i: nat, prev: Block?, block: Block, n: nat, remaining: Block)
      requires Wired() && i < |free| && block == free[i] && prev == At(free, i - 1) && n <= block.size
      requires remaining !in free && !remaining.isAllocated
      requires remaining.Range() == Extent(block.addr + n, block.size - n)
      modifies this`freeList, this`free, this`view, free`next, free`prev, remaining`next, remaining`prev, block`size
      ensures Wired() && block !in free && block.size == n
      ensures free == Replaced(old(free), i, remaining)
      ensures view == old(view).(free := Replaced(old(view).free, i, remaining.Range()))
    {
      Split(i, block, n, remaining);
      InsertThenRemove(old(free), i, block, remaining);
      InsertThenRemove(old(view).free, i, Extent(block.addr, n), remaining.Range());
      Detach(i, prev, block);
    }

    // Hand out the i-th free block whole.
    method GrantWhole(ghost i: nat, prev: Block?, block: Block, n: nat)
      requires Wired() && i < |free| && block == free[i] && prev == At(free, i - 1) && n <= block.size
      modifies this`freeList, this`free, this`usedList, this`used, this`view
      modifies free`next, free`prev, block`isAllocated, used`next, used`prev
      ensures Wired() && free == Removed(old(free), i) && used == [block] + old(used)
      ensures view == GrantedWhole(old(view), i, n)
    {
      assert view.free[i] == block.Range();
      Detach(i, prev, block);
      assert block.Range() == old(view).free[i];
      Attach(block, n, block.size - n, 0);
    }

    // A free node shows the range the list gives it.
    lemma FreeShown(i: nat)
      requires Wired() && i < |free|
      ensures |view.free| == |free| && view.free[i] == free[i].Range()
    {
    }

    // Split the i-th free block and hand out its front part of n bytes.
    method GrantFront(ghost i: nat, prev: Block?, block: Block, n: nat, remaining: Block)
      requires Wired() && i < |free| && block == free[i] && prev == At(free, i - 1) && n <= block.size
      requires remaining !in free && !remaining.isAllocated
      requires remaining.Range() == Extent(block.addr + n, block.size - n)
      modifies this`freeList, this`free, this`usedList, this`used, this`view
      modifies free`next, free`prev, remaining`next, remaining`prev
      modifies block`isAllocated, block`size, used`next, used`prev
      ensures Wired() && free == Replaced(old(free), i, remaining) && used == [block] + old(used)
      ensures view == GrantedFront(old(view), i, n)
    {
      hide *;
      Lists();
      FreeShown(i);
      ghost var rest := remaining.Range();
      RangeIs(block);
      DetachFront(i, prev, block, n, remaining);
      RangeIs(block);
      Attach(block, n, 0, 1);
      GrantedFrontIs(old(view), i, n, block.Range(), rest);
    }

    // create_block: the node may not be obtainable.
    method CreateBlock(addr: nat, size: nat, callocOk: bool) returns (b: Block?)
      ensures b == null <==> !callocOk
      ensures b != null ==> fresh(b) && !b.isAllocated && b.Range() == Extent(addr, size)
    {
      if callocOk {
        b := new Block(addr, size);
      } else {
        b := null;
      }
    }

    // A node for what is left of a block when more than a page is left over.
    method Remainder(block: Block, n: nat, callocOk: bool) returns (remaining: Block?)
      requires n <= block.size && n + pageSize < WORD && block.addr + n < WORD
      ensures remaining != null <==> n + pageSize < block.size && callocOk
      ensures remaining != null ==>
              fresh(remaining) && !remaining.isAllocated
              && remaining.Range() == Extent(block.addr + n, block.size - n)
    {
      WrapSmall(n + pageSize);
      WrapSmall(block.addr + n);
      remaining := null;
      if block.size > Wrap(n + pageSize) {
        remaining := CreateBlock(Wrap(block.addr + n), block.size - n, callocOk);
      }
    }

    // Hand out the i-th free block, of which n bytes were asked for.
    method Grant(ghost i: nat, prev: Block?, block: Block, n: nat, callocOk: bool)
      requires Wired() && i < |free| && block == free[i] && prev == At(free, i - 1)
      requires pageSize == view.page && n <= block.size && n + pageSize < WORD && block.addr + n < WORD
      requires forall j :: 0 <= j < |free| ==> free[j] in nodes
      modifies this`freeList, this`free, this`usedList, this`used, this`view, this`nodes, this`blockCount
      modifies free`next, free`prev, block`isAllocated, block`size, used`next, used`prev
      ensures Wired() && used == [block] + old(used) && view == Granted(old(view), i, n, callocOk)
      ensures fresh(nodes - old(nodes)) && old(nodes) <= nodes
      ensures forall j :: 0 <= j < |free| ==> free[j] in nodes
      ensures blockCount == old(blockCount) + (view.blockCount - old(view).blockCount)
    {
      assert view.free[i] == block.Range();
      var remaining := Remainder(block, n, callocOk);
      if remaining != null {
        ghost var node: Block := remaining;
        Members(free, i, node);
        nodes := nodes + {node};
        blockCount := blockCount + 1;
        GrantFront(i, prev, block, n, remaining);
      } else {
        Members(free, i, block);
        GrantWhole(i, prev, block, n);
      }
    }

    // The search loop of pool_alloc: the first free block of at least n bytes, and the one before.
    method SearchFit(n: nat) returns (prev: Block?, block: Block?, ghost i: nat)
      requires Wired()
      ensures i == FirstFit(view.free, n)
      ensures block == At(free, i) && prev == At(free, i - 1) && (block != null ==> n <= block.size)
    {
      prev, block, i := null, freeList, 0;
      while block != null
        invariant i <= |free| && block == At(free, i) && prev == At(free, i - 1)
        invariant forall j :: 0 <= j < i ==> view.free[j].size < n
        decreases |free| - i
      {
        assert view.free[i] == block.Range();
        if block.size >= n {
          break;
        }
        prev := block;
        block := block.next;
        i := i + 1;
      }
    }

    method AllocWired(n: nat, callocOk: bool) returns (r: Block?)
      requires Wired() && pageSize == view.page && forall j :: 0 <= j < |free| ==> free[j] in nodes
      requires FirstFit(view.free, n) < |view.free| ==>
               n + pageSize < WORD && view.free[FirstFit(view.free, n)].addr + n < WORD
      modifies this`freeList, this`free, this`usedList, this`used, this`view, this`nodes, this`blockCount
      modifies free`next, free`prev, free`size, free`isAllocated, used`next, used`prev
      ensures Wired() && fresh(nodes - old(nodes)) && old(nodes) <= nodes
      ensures var p := old(view); var i := FirstFit(p.free, n);
              if i < |p.free| then r != null && r in nodes && used == [r] + old(used) && view == Granted(p, i, n, callocOk)
              else r == null && used == old(used) && view == p
      ensures forall j :: 0 <= j < |free| ==> free[j] in nodes
      ensures blockCount == old(blockCount) + (view.blockCount - old(view).blockCount)
    {
      var prev, block, i := SearchFit(n);
      if block != null {
        assert view.free[i] == block.Range();
        Grant(i, prev, block, n, callocOk);
      }
      r := block;
    }

    method AllocSound(n: nat, callocOk: bool) returns (r: Block?)
      requires Sound()
      requires FirstFit(view.free, n) < |view.free| ==>
               n + pageSize < WORD && view.free[FirstFit(view.free, n)].addr + n < WORD
      modifies this, nodes`next, nodes`prev, nodes`size, nodes`isAllocated
      ensures Sound() && fresh(nodes - old(nodes)) && old(nodes) <= nodes
      ensures var p := old(view); var i := FirstFit(p.free, n);
              if i < |p.free| then r != null && used == [r] + old(used) && view == Granted(p, i, n, callocOk)
              else r == null && used == old(used) && view == p
    {
      hide *;
      SoundParts();
      WrapAdd(view.ledger, n);
      ghost var p := view;
      r := AllocWired(n, callocOk);
      if r != null {
        GrantedKeeps(p, FirstFit(p.free, n), n, callocOk);
        usedSize := Wrap(usedSize + n);
      }
      SoundAgain();
    }

    /** pool_alloc: first fit.  `callocOk` says whether a node for a remainder could be had. */
    method Alloc(request: nat, callocOk: bool) returns (r: Block?)
      requires Valid() && 0 < request < WORD
      modifies this, nodes`next, nodes`prev, nodes`size, nodes`isAllocated
      ensures Valid() && fresh(nodes - old(nodes)) && old(nodes) <= nodes
      ensures view == PoolSpec.Alloc(old(view), request, callocOk)
      ensures r != null <==> Grants(old(view), request)
      ensures used == if r != null then [r] + old(used) else old(used)
    {
      var n := AlignUp(request, pageSize);
      if n < request {
        return null;
      }
      AllocKeepsInv(view, request, callocOk);
      if Grants(view, request) {
        GrantFits(view, request, FirstFit(view.free, n));
      }
      r := AllocSound(n, callocOk);
    }

    // Unlink the k-th node from the used list.
    method Unlist(ghost k: nat, block: Block, ghost count: int)
      requires Wired() && k < |used| && block == used[k]
      modifies this`usedList, this`used, this`view, used`next, used`prev
      ensures Wired() && used == Removed(old(used), k) && block !in free && block !in used
      ensures view == old(view).(used := Removed(old(view).used, k), ledger := old(view).ledger - block.size,
                                 blockCount := count)
    {
      hide *;
      Lists();
      UsedLinks(k);
      usedList := Remove(usedList, used, view.used, true, k, block.prev, block);
      used := Removed(used, k);
      view := view.(used := Removed(view.used, k), ledger := view.ledger - block.size, blockCount := count);
      Rewired();
    }

    // Take the k-th node off the used list and refund its size.
    method DetachUsed(ghost k: nat, block: Block, ghost count: int)
      requires Wired() && k < |used| && block == used[k]
      modifies this`usedList, this`used, this`view, used`next, used`prev, block`isAllocated
      ensures Wired() && used == Removed(old(used), k) && block !in free && !block.isAllocated
      ensures view == old(view).(used := Removed(old(view).used, k), ledger := old(view).ledger - block.size,
                                 blockCount := count)
    {
      Unlist(k, block, count);
      block.isAllocated := false;
    }

    // The loop of pool_free that finds the neighbours of an address in the free list.
    method SearchPosition(addr: nat) returns (prev: Block?, curr: Block?, ghost i: nat)
      requires Wired()
      ensures i == InsertPos(view.free, addr)
      ensures curr == At(free, InsertPos(view.free, addr)) && prev == At(free, InsertPos(view.free, addr) - 1)
    {
      prev, curr, i := null, freeList, 0;
      while curr != null && curr.addr < addr
        invariant i <= |free| && curr == At(free, i) && prev == At(free, i - 1)
        invariant forall j :: 0 <= j < i ==> view.free[j].addr < addr
        decreases |free| - i
      {
        assert view.free[i] == curr.Range();
        prev := curr;
        curr := curr.next;
        i := i + 1;
      }
      InsertPosIs(view.free, addr, i) by {
        assert i < |free| ==> view.free[i] == curr.Range();
      }
    }

    // Merge the i-th free block with the next one, which it touches.
    method Merge(ghost i: nat, block: Block, next: Block)
      requires Wired() && i + 1 < |free| && block == free[i] && next == free[i + 1]
      requires block.addr + block.size == next.addr
      modifies this`freeList, this`free, this`view, free`next, free`prev, block`size
      ensures Wired() && free == Removed(old(free), i + 1)
      ensures view == old(view).(free := JoinAt(old(view).free, i))
    {
      ghost var was := view.free;
      assert was[i] == block.Range() && was[i + 1] == next.Range();
      ghost var joined := Extent(was[i].addr, was[i].size + was[i + 1].size);
      UpdateThenRemove(was, i, joined);
      assert JoinAt(was, i) == Removed(was[i := joined], i + 1);
      ResizeFree(i, block, block.size + next.size);
      assert view.free == was[i := joined];
      Detach(i + 1, block, next);
    }

    // Merge the i-th free block with the next one, if they touch.
    method Join(ghost i: nat, block: Block, next: Block?)
      requires Wired() && i < |free| && block == free[i] && next == At(free, i + 1)
      requires block.addr + block.size < WORD
      modifies this`freeList, this`free, this`view, this`blockCount, free`next, free`prev, block`size
      ensures Wired() && i < |free| && free[i] == block
      ensures 0 < i ==> free[i - 1] == old(free)[i - 1] && view.free[i - 1] == old(view).free[i - 1]
      ensures forall j :: 0 <= j < |free| ==> free[j] in old(free)
      ensures view == old(view).(free := JoinAt(old(view).free, i))
      ensures blockCount == old(blockCount) - (|old(free)| - |free|)
    {
      WrapSmall(block.addr + block.size);
      assert view.free[i] == block.Range();
      if next != null && !next.isAllocated && Wrap(block.addr + block.size) == next.addr {
        blockCount := blockCount - 1;
        Members(free, i + 1, block);
        Merge(i, block, next);
      } else {
        assert i + 1 < |free| ==> view.free[i + 1] == free[i + 1].Range();
      }
    }

    // Link a block into the free list and merge it with the block after it, if they touch.
    method PlaceJoin(ghost i: nat, prev: Block?, block: Block, curr: Block?)
      requires Wired() && block !in free && !block.isAllocated && i <= |free|
      requires prev == At(free, i - 1) && curr == At(free, i) && block.addr + block.size < WORD
      modifies this`freeList, this`free, this`view, this`blockCount, free`next, free`prev
      modifies block`next, block`prev, block`size
      ensures Wired() && i < |free| && free[i] == block
      ensures view == old(view).(free := JoinAt(Inserted(old(view).free, i, old(block.Range())), i))
      ensures forall j :: 0 <= j < |free| ==> free[j] in old(free) || free[j] == block
      ensures blockCount == old(blockCount) - (|old(free)| + 1 - |free|)
    {
      hide *;
      InsertedAt(free, i, block);
      Place(i, prev, block, curr);
      FreeLinks(i);
      Join(i, block, block.next);
    }

    // Merge the i-th free block with the one before it, if they touch.
    method JoinPrevious(ghost i: nat, block: Block)
      requires Wired() && i < |free| && block == free[i] && (0 < i ==> view.free[i - 1].End() < WORD)
      modifies this`freeList, this`free, this`view, this`blockCount, free`next, free`prev, free`size
      ensures Wired()
      ensures view == old(view).(free := if i == 0 then old(view).free else JoinAt(old(view).free, i - 1))
      ensures forall j :: 0 <= j < |free| ==> free[j] in old(free)
      ensures blockCount == old(blockCount) - (|old(free)| - |free|)
    {
      var before := block.prev;
      assert before == At(free, i - 1);
      if before != null {
        assert view.free[i - 1] == before.Range();
        Join(i - 1, before, block);
      }
    }

    // Put a block on no list back into the free list, in address order, and coalesce.
    method InsertFree(block: Block)
      requires Wired() && block !in free && !block.isAllocated && block.addr + block.size < WORD
      requires forall j :: 0 <= j < |free| ==> view.free[j].End() < WORD
      modifies this`freeList, this`free, this`view, this`blockCount, free`next, free`prev, free`size
      modifies block`next, block`prev, block`size
      ensures Wired()
      ensures view == old(view).(free := Release(old(view).free, old(block.Range())))
      ensures forall j :: 0 <= j < |free| ==> free[j] in old(free) || free[j] == block
      ensures blockCount == old(blockCount) - (|old(free)| + 1 - |free|)
    {
      ReleaseSteps(view.free, block.Range());
      var prev, curr, i := SearchPosition(block.addr);
      JoinAtBefore(view.free, block.Range(), i);
      PlaceJoin(i, prev, block, curr);
      JoinPrevious(i, block);
    }

    method FreeWired(block: Block, ghost k: nat)
      requires Wired() && k < |used| && block == used[k] && view.used[k].End() < WORD
      requires forall j :: 0 <= j < |free| ==> view.free[j].End() < WORD
      modifies this`freeList, this`free, this`usedList, this`used, this`view, this`blockCount
      modifies free`next, free`prev, free`size, used`next, used`prev
      modifies block`size, block`isAllocated
      ensures Wired() && used == Removed(old(used), k) && view == FreeAt(old(view), k)
      ensures forall j :: 0 <= j < |free| ==> free[j] in old(free) || free[j] == block
      ensures blockCount == old(blockCount) + (view.blockCount - old(view).blockCount)
    {
      ghost var p := view;
      assert p.used[k] == block.Range();
      DetachUsed(k, block, FreeAt(p, k).blockCount);
      InsertFree(block);
    }

    method FreeSound(block: Block, ghost k: nat)
      requires Sound() && k < |used| && block == used[k] && view.used[k].End() < WORD
      requires forall j :: 0 <= j < |free| ==> view.free[j].End() < WORD
      modifies this, nodes`next, nodes`prev, nodes`size, nodes`isAllocated
      ensures Sound() && nodes == old(nodes) && used == Removed(old(used), k)
      ensures view == FreeAt(old(view), k)
    {
      hide *;
      SoundParts();
      RangeIs(block);
      Members(used, k, block);
      FreeAtKeeps(view, k);
      WrapAdd(view.ledger, 0 - block.size);
      usedSize := Wrap(usedSize - block.size);
      FreeWired(block, k);
      SoundAgain();
    }

    // Nothing of this pool is in the other one.
    ghost predicate Separate(q: Pool)
      reads this`free, this`used, q`free, q`used
    {
      && (forall i, j :: 0 <= i < |free| && 0 <= j < |q.free| ==> free[i] != q.free[j])
      && (forall i, j :: 0 <= i < |free| && 0 <= j < |q.used| ==> free[i] != q.used[j])
      && (forall i, j :: 0 <= i < |used| && 0 <= j < |q.free| ==> used[i] != q.free[j])
      && (forall i, j :: 0 <= i < |used| && 0 <= j < |q.used| ==> used[i] != q.used[j])
    }

    lemma NodesSeparate(q: Pool)
      requires Sound() && q.Sound() && nodes !! q.nodes
      ensures Separate(q)
    {
      SoundParts();
      q.SoundParts();
      hide *;
    }

    // Unlink the first live node of another pool as pool_free does it: the head that moves is this pool's.
    method UnhookFirst(q: Pool, block: Block, ghost count: int)
      requires Wired() && q.Wired() && q != this && Separate(q) && q.used != [] && block == q.used[0] && block.prev == null
      modifies this`usedList, this`used, this`view, q`used, q`view, q.used`next, q.used`prev, block`isAllocated
      ensures Wired() && !block.isAllocated && old(q.view).used != [] && q.usedList == block
      ensures view == old(view).(used := Removed(old(q.view).used, 0), ledger := old(view).ledger - block.size, blockCount := count)
      ensures q.view == old(q.view).(used := [])
    {
      hide *;
      Lists();
      q.Lists();
      SeparateParts(q);
      HeadOf(q.usedList, q.used, q.view.used, true);
      AtFirst(q.used);
      usedList := Remove(q.usedList, q.used, q.view.used, true, 0, null, block);
      used := Removed(q.used, 0);
      view := view.(used := Removed(q.view.used, 0), ledger := view.ledger - block.size, blockCount := count);
      q.used, q.view := [], q.view.(used := []);
      block.isAllocated := false;
      Rewired();
    }

    // Unlink a later one: its own list stays in order.
    method UnhookLater(q: Pool, block: Block, ghost k: nat, ghost count: int)
      requires Wired() && q.Wired() && q != this && Separate(q) && 0 < k < |q.used| && block == q.used[k]
      modifies this`view, q`used, q`view, q.used`next, q.used`prev, block`isAllocated
      ensures Wired() && q.Wired() && !block.isAllocated && q.usedList == old(q.usedList) && k < |old(q.view).used|
      ensures block !in q.free && block !in q.used && q.used == Removed(old(q.used), k)
      ensures view == old(view).(ledger := old(view).ledger - block.size, blockCount := count)
      ensures q.view == old(q.view).(used := Removed(old(q.view).used, k))
    {
      hide *;
      Lists();
      q.Lists();
      SeparateParts(q);
      q.UsedLinks(k);
      HeadOf(q.usedList, q.used, q.view.used, true);
      var head := Remove(q.usedList, q.used, q.view.used, true, k, block.prev, block);
      HeadOf(head, Removed(q.used, k), Removed(q.view.used, k), true);
      HeadStays(q.usedList, q.used, k, head);
      view := view.(ledger := view.ledger - block.size, blockCount := count);
      q.used, q.view := Removed(q.used, k), q.view.(used := Removed(q.view.used, k));
      block.isAllocated := false;
      Rewired();
      q.Rewired();
    }

    lemma SeparateParts(q: Pool)
      requires Separate(q)
      ensures forall i, j :: 0 <= i < |free| && 0 <= j < |q.free| ==> free[i] != q.free[j]
      ensures forall i, j :: 0 <= i < |free| && 0 <= j < |q.used| ==> free[i] != q.used[j]
      ensures forall i, j :: 0 <= i < |used| && 0 <= j < |q.free| ==> used[i] != q.free[j]
      ensures forall i, j :: 0 <= i < |used| && 0 <= j < |q.used| ==> used[i] != q.used[j]
    {
    }

    lemma InvHolds()
      requires Valid()
      ensures Sound() && Inv(view)
    {
    }

    // No block of the pool ends beyond the address space.
    lemma Bounds()
      requires Valid()
      ensures Sound() && |view.free| == |free| && |view.used| == |used|
      ensures forall j :: 0 <= j < |free| ==> view.free[j].End() < WORD
      ensures forall j :: 0 <= j < |used| ==> view.used[j].End() == view.used[j].addr + view.used[j].size < WORD
    {
      InvBounds(view);
    }

    lemma UsedFlags()
      requires Valid()
      ensures forall k :: 0 <= k < |used| ==> used[k].isAllocated
    {
    }

    lemma ValidAgain()
      requires Sound() && Inv(view)
      ensures Valid()
    {
    }

    /** pool_free.  Nothing happens to a null pointer or to a block that is not allocated. */
    method Free(block: Block?)
      requires Valid() && (block != null && block.isAllocated ==> block in used)
      modifies this, nodes`next, nodes`prev, nodes`size, nodes`isAllocated
      ensures Valid() && nodes == old(nodes)
      ensures view == if block != null && old(block.isAllocated) then PoolSpec.Free(old(view), old(block.addr))
                      else old(view)
      ensures forall k :: 0 <= k < |old(used)| && old(used)[k] == block ==>
              used == Removed(old(used), k) && view == FreeAt(old(view), k)
    {
      hide *;
      UsedFlags();
      if block != null && block.isAllocated {
        ghost var k :| 0 <= k < |used| && used[k] == block;
        UsedShown(k);
        UsedOnce(k);
        RangeIs(block);
        InvHolds();
        Bounds();
        FreeIs(view, k);
        FreeKeepsInv(view, k);
        FreeSound(block, k);
        ValidAgain();
      }
    }

    // The counters of pool_free, which are this pool's.
    method Unhook(q: Pool, block: Block, ghost k: nat)
      requires Wired() && q.Wired() && q != this && Separate(q) && k < |q.used| && block == q.used[k]
      requires |q.view.used| == |q.used|
      modifies this`usedList, this`used, this`view, q`used, q`view, q.used`next, q.used`prev, block`isAllocated
      ensures Wired() && !block.isAllocated && block !in free && free == old(free)
      ensures view == PoolSpec.FreeForeign(old(view), old(q.view), k).(free := old(view).free)
      ensures q.view == Robbed(old(q.view), k)
      ensures k == 0 ==> q.usedList == block
      ensures k > 0 ==> q.Wired() && block !in q.free && block !in q.used && q.used == Removed(old(q.used), k)
    {
      hide *;
      q.UsedLinks(k);
      q.LiveShown(k);
      SeparateParts(q);
      FreeForeignIs(view, q.view, k);
      ghost var count := PoolSpec.FreeForeign(view, q.view, k).blockCount;
      AtPrevious(q.used, k);
      if block.prev == null {
        UnhookFirst(q, block, count);
      } else {
        UnhookLater(q, block, k, count);
      }
    }

    lemma LiveShown(k: nat)
      requires Wired() && k < |used|
      ensures |used| == |view.used| && view.used[k] == Extent(used[k].addr, used[k].size)
    {
    }

    /** pool_free, given the k-th live block of another pool: it enters this pool's free list, and nothing
        tells the other pool. */
    method FreeStray(q: Pool, block: Block, ghost k: nat)
      requires Valid() && q.Valid() && q != this && nodes !! q.nodes && k < |q.used| && block == q.used[k]
      modifies this, q`used, q`view, nodes`next, nodes`prev, nodes`size, q.nodes`next, q.nodes`prev, block`size, block`isAllocated
      ensures Wired() && usedSize == Wrap(view.ledger) && blockCount == view.blockCount && nodes == old(nodes)
      ensures k < |old(q.view).used| && view == PoolSpec.FreeForeign(old(view), old(q.view), k)
      ensures q.view == Robbed(old(q.view), k)
      ensures k == 0 ==> q.usedList == block && !block.isAllocated
      ensures k > 0 ==> q.Wired() && q.used == Removed(old(q.used), k)
    {
      hide *;
      Bounds();
      q.Bounds();
      SoundParts();
      q.SoundParts();
      NodesSeparate(q);
      SeparateParts(q);
      q.LiveShown(k);
      RangeIs(block);
      FreeForeignIs(view, q.view, k);
      ghost var p := view;
      WrapAdd(view.ledger, 0 - block.size);
      Unhook(q, block, k);
      RangeIs(block);
      Lists();
      Members(old(q.used), k, block);
      usedSize := Wrap(usedSize - block.size);
      InsertFree(block);
      Lists();
    }
  }

  // What the first node of a list is stays so when a later one goes.
  lemma HeadStays(head: Block?, s: seq<Block>, k: nat, head': Block?)
    requires 0 < k < |s| && head == At(s, 0) && head' == At(Removed(s, k), 0)
    ensures head' == head
  {
  }

  // No block of a pool ends beyond the address space.
  lemma InvBounds(p: PoolState)
    requires Inv(p)
    ensures forall j :: 0 <= j < |p.free| ==> p.free[j].End() < WORD
    ensures forall j :: 0 <= j < |p.used| ==> p.used[j].End() < WORD
  {
    if p.total == 0 {
      assert Shaped(p) && Configured(p);
    } else {
      forall j | 0 <= j < |p.free| ensures p.free[j].End() < WORD {
        AllocBlockInPool(p, j);
      }
    }
    forall j | 0 <= j < |p.used| ensures p.used[j].End() < WORD {
      UsedBlockInPool(p, j);
    }
  }

  lemma AtPrevious(s: seq<Block>, k: nat)
    requires k < |s|
    ensures At(s, k - 1) == null <==> k == 0
  {
  }

  lemma AtFirst(s: seq<Block>)
    requires s != []
    ensures At(s, 0) == s[0] && At(s, 0 - 1) == null
  {
  }

  lemma HeadOf(head: Block?, s: seq<Block>, r: seq<Extent>, flag: bool)
    requires Listed(head, s, r, flag)
    ensures head == At(s, 0)
  {
  }

  lemma FreeForeignIs(p: PoolState, q: PoolState, k: nat)
    requires k < |q.used|
    ensures var b := q.used[k];
            var r := FreeForeign(p, q, k);
            && r.free == Release(p.free, b) && r.ledger == p.ledger - b.size
            && r.blockCount == p.blockCount - (|p.free| + 1 - |r.free|)
            && r == p.(free := r.free, used := if k == 0 then q.used[1..] else p.used, ledger := r.ledger, blockCount := r.blockCount)
    ensures Robbed(q, k) == q.(used := if k == 0 then [] else Removed(q.used, k))
    ensures k == 0 ==> Removed(q.used, k) == q.used[1..]
  {
    hide Release;
  }

  lemma InsertedAt<T>(s: seq<T>, k: nat, node: T)
    requires k <= |s|
    ensures |Inserted(s, k, node)| == |s| + 1 && Inserted(s, k, node)[k] == node
    ensures forall j :: 0 <= j <= |s| ==> Inserted(s, k, node)[j] in s || Inserted(s, k, node)[j] == node
  {
  }

  // Neither operation moves the pool; the counters change by what is charged or refunded.
  lemma GrantedKeeps(p: PoolState, i: nat, n: nat, callocOk: bool)
    requires i < |p.free| && n <= p.free[i].size
    ensures var q := Granted(p, i, n, callocOk);
            q.base == p.base && q.total == p.total && q.page == p.page && q.ledger == p.ledger + n
  {
  }

  lemma FreeAtKeeps(p: PoolState, k: nat)
    requires k < |p.used|
    ensures var q := FreeAt(p, k);
            q.base == p.base && q.total == p.total && q.page == p.page && q.ledger == p.ledger - p.used[k].size
  {
    hide Release;
  }

  // A live block is found under its address.
  lemma FreeIs(p: PoolState, k: nat)
    requires Inv(p) && k < |p.used|
    ensures PoolSpec.Free(p, p.used[k].addr) == FreeAt(p, k)
  {
    FindLive(p, k);
    hide FreeAt;
  }

  lemma RangeIs(block: Block)
    ensures block.Range() == Extent(block.addr, block.size)
  {
  }

  lemma GrantedFrontIs(p: PoolState, i: nat, n: nat, front: Extent, rest: Extent)
    requires i < |p.free| && n <= p.free[i].size
    requires front == Extent(p.free[i].addr, n) && rest == Extent(p.free[i].addr + n, p.free[i].size - n)
    ensures GrantedFront(p, i, n) ==
      p.(free := Replaced(p.free, i, rest), used := [front] + p.used, ledger := p.ledger + n, slack := p.slack + 0,
         blockCount := p.blockCount + 1)
  {
  }
}
