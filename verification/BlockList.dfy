/**
 Block nodes of memory_manager.c and the doubly linked lists made of them.  The two pointer
 manipulations the pool repeats, linking a node between two neighbours and unlinking one, are
 stated on the sequence of nodes the list consists of.
 */
module BlockList {
  import opened Extents

  class Block {
    var addr: nat
    var size: nat
    var isAllocated: bool
    var hostAddr: nat
    var next: Block?
    var prev: Block?

    constructor (addr: nat, size: nat)
      ensures this.addr == addr && this.size == size && !isAllocated && hostAddr == 0
      ensures next == null && prev == null
    {
      this.addr, this.size, isAllocated, hostAddr := addr, size, false, 0;
      next, prev := null, null;
    }

    ghost function Range(): Extent
      reads this`addr, this`size
    {
      Extent(addr, size)
    }
  }

  ghost predicate Distinct(s: seq<Block>) {
    forall i, j :: 0 <= i < j < |s| ==> s[i] != s[j]
  }

  ghost function At(s: seq<Block>, i: int): Block? {
    if 0 <= i < |s| then s[i] else null
  }

  // s is the doubly linked list that starts at head.
  ghost predicate Linked(head: Block?, s: seq<Block>)
    reads s`next, s`prev
  {
    && head == At(s, 0)
    && (forall i {:trigger s[i].next} :: 0 <= i < |s| ==> s[i].next == At(s, i + 1))
    && (forall i {:trigger s[i].prev} :: 0 <= i < |s| ==> s[i].prev == At(s, i - 1))
  }

  // r is the list of address ranges the nodes of s stand for.
  ghost predicate Mirrors(s: seq<Block>, r: seq<Extent>)
    reads s`addr, s`size
  {
    |r| == |s| && forall i :: 0 <= i < |s| ==> s[i].Range() == r[i]
  }

  ghost predicate Flagged(s: seq<Block>, flag: bool)
    reads s`isAllocated
  {
    forall i :: 0 <= i < |s| ==> s[i].isAllocated == flag
  }

  // The list starting at head has the nodes s, which stand for the ranges r and carry this flag.
  ghost predicate Listed(head: Block?, s: seq<Block>, r: seq<Extent>, flag: bool)
    reads s`next, s`prev, s`addr, s`size, s`isAllocated
  {
    Distinct(s) && Linked(head, s) && Mirrors(s, r) && Flagged(s, flag)
  }

  ghost function Inserted<T>(s: seq<T>, k: nat, node: T): seq<T>
    requires k <= |s|
  {
    s[..k] + [node] + s[k..]
  }

  ghost function Removed<T>(s: seq<T>, k: nat): seq<T>
    requires k < |s|
  {
    s[..k] + s[k + 1..]
  }

  ghost function Replaced<T>(s: seq<T>, k: nat, node: T): seq<T>
    requires k < |s|
  {
    s[..k] + [node] + s[k + 1..]
  }

  // Inserting after an element, changed or not, and removing that element replaces it.
  lemma InsertThenRemove<T>(s: seq<T>, i: nat, front: T, rest: T)
    requires i < |s|
    ensures Removed(Inserted(s, i + 1, rest), i) == Replaced(s, i, rest)
    ensures Removed(Inserted(s, i + 1, rest)[i := front], i) == Replaced(s, i, rest)
  {
  }

  // Changing an element and removing the next one, as when two blocks are joined.
  lemma UpdateThenRemove<T>(s: seq<T>, i: nat, joined: T)
    requires i + 1 < |s|
    ensures Removed(s[i := joined], i + 1) == s[..i] + [joined] + s[i + 2..]
  {
  }

  lemma InsertedFirst<T>(s: seq<T>, node: T)
    ensures Inserted(s, 0, node) == [node] + s
  {
  }

  lemma Members<T>(s: seq<T>, k: nat, node: T)
    requires k < |s|
    ensures forall j :: 0 <= j < |Removed(s, k)| ==> Removed(s, k)[j] in s
    ensures forall j :: 0 <= j < |Replaced(s, k, node)| ==> Replaced(s, k, node)[j] in s || Replaced(s, k, node)[j] == node
  {
  }

  lemma DistinctInserted(s: seq<Block>, k: nat, node: Block)
    requires Distinct(s) && k <= |s| && node !in s
    ensures Distinct(Inserted(s, k, node))
    ensures forall b :: b in Inserted(s, k, node) <==> b == node || b in s
  {
  }

  lemma DistinctRemoved(s: seq<Block>, k: nat)
    requires Distinct(s) && k < |s|
    ensures Distinct(Removed(s, k)) && s[k] !in Removed(s, k)
    ensures forall b :: b in s <==> b == s[k] || b in Removed(s, k)
  {
    forall b | b in s && b != s[k] ensures b in Removed(s, k) {
      var i :| 0 <= i < |s| && s[i] == b;
      assert Removed(s, k)[if i < k then i else i - 1] == b;
    }
  }

  lemma DataInserted(s: seq<Block>, r: seq<Extent>, flag: bool, k: nat, node: Block)
    requires Mirrors(s, r) && Flagged(s, flag) && k <= |s| && node.isAllocated == flag
    ensures Mirrors(Inserted(s, k, node), Inserted(r, k, node.Range())) && Flagged(Inserted(s, k, node), flag)
  {
  }

  lemma DataRemoved(s: seq<Block>, r: seq<Extent>, flag: bool, k: nat)
    requires Mirrors(s, r) && Flagged(s, flag) && k < |s|
    ensures Mirrors(Removed(s, k), Removed(r, k)) && Flagged(Removed(s, k), flag)
  {
  }

  // Link a node that is on no list between prev and next; the new head of the list is returned.
  method Link(head: Block?, ghost s: seq<Block>, ghost k: nat, prev: Block?, node: Block, next: Block?)
    returns (head': Block?)
    requires Distinct(s) && Linked(head, s) && node !in s && k <= |s|
    requires prev == At(s, k - 1) && next == At(s, k)
    modifies s`next, s`prev, node`next, node`prev
    ensures Linked(head', Inserted(s, k, node))
  {
    node.next := next;
    node.prev := prev;
    head' := head;
    if prev != null {
      prev.next := node;
    } else {
      head' := node;
    }
    if next != null {
      next.prev := node;
    }
    ghost var t := Inserted(s, k, node);
    forall j | 0 <= j < |t| ensures t[j].next == At(t, j + 1) && t[j].prev == At(t, j - 1) {
      if j != k {
        ghost var m := if j < k then j else j - 1;
        assert t[j] == s[m] && old(s[m].next) == At(s, m + 1) && old(s[m].prev) == At(s, m - 1);
      }
    }
  }

  // Unlink the k-th node; the new head of the list is returned.
  method Unlink(head: Block?, ghost s: seq<Block>, ghost k: nat, prev: Block?, node: Block)
    returns (head': Block?)
    requires Distinct(s) && Linked(head, s) && k < |s| && node == s[k] && prev == At(s, k - 1)
    modifies s`next, s`prev
    ensures Linked(head', Removed(s, k))
  {
    var next := node.next;
    assert next == At(s, k + 1);
    head' := head;
    if prev != null {
      prev.next := next;
    } else {
      head' := next;
    }
    if next != null {
      next.prev := prev;
    }
    ghost var t := Removed(s, k);
    forall j | 0 <= j < |t| ensures t[j].next == At(t, j + 1) && t[j].prev == At(t, j - 1) {
      ghost var m := if j < k then j else j + 1;
      assert t[j] == s[m] && old(s[m].next) == At(s, m + 1) && old(s[m].prev) == At(s, m - 1);
    }
  }

  // The same two operations on everything known about a list.
  method Insert(head: Block?, ghost s: seq<Block>, ghost r: seq<Extent>, ghost flag: bool,
                ghost k: nat, prev: Block?, node: Block, next: Block?)
    returns (head': Block?)
    requires Listed(head, s, r, flag) && node !in s && k <= |s| && node.isAllocated == flag
    requires prev == At(s, k - 1) && next == At(s, k)
    modifies s`next, s`prev, node`next, node`prev
    ensures Listed(head', Inserted(s, k, node), Inserted(r, k, node.Range()), flag)
  {
    DistinctInserted(s, k, node);
    DataInserted(s, r, flag, k, node);
    head' := Link(head, s, k, prev, node, next);
  }

  method Push(head: Block?, ghost s: seq<Block>, ghost r: seq<Extent>, ghost flag: bool, node: Block)
    returns (head': Block?)
    requires Listed(head, s, r, flag) && node !in s && node.isAllocated == flag
    modifies s`next, s`prev, node`next, node`prev
    ensures Listed(head', [node] + s, [node.Range()] + r, flag)
  {
    InsertedFirst(s, node);
    InsertedFirst(r, node.Range());
    head' := Insert(head, s, r, flag, 0, null, node, head);
  }

  method Remove(head: Block?, ghost s: seq<Block>, ghost r: seq<Extent>, ghost flag: bool,
                ghost k: nat, prev: Block?, node: Block)
    returns (head': Block?)
    requires Listed(head, s, r, flag) && k < |s| && node == s[k] && prev == At(s, k - 1)
    modifies s`next, s`prev
    ensures Listed(head', Removed(s, k), Removed(r, k), flag) && node !in Removed(s, k)
  {
    DistinctRemoved(s, k);
    DataRemoved(s, r, flag, k);
    head' := Unlink(head, s, k, prev, node);
  }
  // A node of the list gets another size.
  method Resize(ghost head: Block?, ghost s: seq<Block>, ghost r: seq<Extent>, ghost flag: bool,
                ghost k: nat, node: Block, n: nat)
    requires Listed(head, s, r, flag) && k < |s| && node == s[k]
    modifies node`size
    ensures node.size == n && Listed(head, s, r[k := Extent(node.addr, n)], flag)
  {
    node.size := n;
  }
}
