/**
 How pcie_tunnel.c cuts a DMA transfer into memory transactions of at most 256 bytes, numbered
 with 8-bit tags that run on from transfer to transfer.
 */
module DmaTransfer {
  import opened Words

  const MAX_PAYLOAD: nat := 256
  const PAGE: nat := 4096
  const MAX_TRANSFER: nat := 0x4000_0000

  // A transaction: `dwords` is the length field of its header, `bytes` the payload it stands for.
  datatype Tlp = Tlp(write: bool, address: nat, dwords: nat, tag: nat, bytes: nat) {
    function End(): nat { address + bytes }
  }

  datatype Request = Request(hostAddr: nat, deviceAddr: nat, size: nat, write: bool)

  datatype Status = Success | InvalidParam

  function Min(a: nat, b: nat): nat { if a < b then a else b }

  function Split(write: bool, address: nat, size: nat, tag: nat): seq<Tlp>
    decreases size
  {
    if size == 0 then [] else
      var chunk := Min(size, MAX_PAYLOAD);
      [Tlp(write, address, (chunk + 3) / 4, tag, chunk)]
      + Split(write, address + chunk, size - chunk, (tag + 1) % 256)
  }

  predicate Accepted(r: Request) {
    && 0 < r.size <= MAX_TRANSFER && r.hostAddr != 0
    && r.hostAddr + r.size < WORD && r.deviceAddr + r.size < WORD
  }

  function ByteAt(start: nat, i: nat): nat { start + i }

  /** A request of an allowed size is refused for its addresses exactly when the host pointer is null or one
      of the two ranges reaches the end of the address space; so no transaction that is sent wraps. */
  lemma RefusedAddresses(r: Request, tag: nat)
    requires 0 < r.size <= 0x4000_0000 && tag < 256 && r.hostAddr < WORD && r.deviceAddr < WORD
    ensures !Accepted(r) <==>
            r.hostAddr == 0 || (exists i :: 0 <= i <= r.size && (ByteAt(r.hostAddr, i) == WORD || ByteAt(r.deviceAddr, i) == WORD))
    ensures Accepted(r) ==> forall t <- Split(r.write, r.deviceAddr, r.size, tag) :: t.End() < WORD
  {
    SplitAt(r.write, r.deviceAddr, r.size, tag);
    assert ByteAt(r.hostAddr, WORD - r.hostAddr) == WORD && ByteAt(r.deviceAddr, WORD - r.deviceAddr) == WORD;
  }

  // ---------------------------------------------------------------- what the split is

  lemma TagAfter(tag: nat, i: nat)
    requires tag < 256 && 1 <= i
    ensures ((tag + 1) % 256 + (i - 1)) % 256 == (tag + i) % 256
  {
    if tag == 255 {
      RemainderUnique(tag + i, 256, (i - 1) / 256 + 1, (i - 1) % 256);
    }
  }

  /** The number of transactions, and the i-th one outright. */
  lemma {:induction false} SplitAt(write: bool, address: nat, size: nat, tag: nat)
    requires tag < 256
    ensures var s := Split(write, address, size, tag);
            && |s| == (size + 255) / 256
            && forall i :: 0 <= i < |s| ==>
                 && s[i].address == address + 256 * i && s[i].tag == (tag + i) % 256 && s[i].write == write
                 && s[i].bytes == Min(256, size - 256 * i) && s[i].dwords == (s[i].bytes + 3) / 4
                 && 0 < s[i].bytes
    decreases size
  {
    if 0 < size {
      var chunk := Min(size, MAX_PAYLOAD);
      var rest := Split(write, address + chunk, size - chunk, (tag + 1) % 256);
      var s := Split(write, address, size, tag);
      SplitAt(write, address + chunk, size - chunk, (tag + 1) % 256);
      forall i | 0 <= i < |s|
        ensures s[i].address == address + 256 * i && s[i].tag == (tag + i) % 256 && s[i].write == write
        ensures s[i].bytes == Min(256, size - 256 * i) && s[i].dwords == (s[i].bytes + 3) / 4 && 0 < s[i].bytes
      {
        if 0 < i {
          assert s[i] == rest[i - 1];
          TagAfter(tag, i);
        }
      }
    }
  }

  /** The transactions cover [address, address + size) in order, without gap or overlap: each starts
      where the previous one ended. */
  lemma SplitTiles(write: bool, address: nat, size: nat, tag: nat)
    requires tag < 256 && 0 < size
    ensures var s := Split(write, address, size, tag);
            && s != [] && s[0].address == address && s[|s| - 1].End() == address + size
            && (forall i :: 0 <= i < |s| - 1 ==> s[i].End() == s[i + 1].address)
            && (forall i, j :: 0 <= i < j < |s| ==> s[i].End() <= s[j].address)
  {
    SplitAt(write, address, size, tag);
  }

  /** Any 256 consecutive transactions carry different tags. */
  lemma TagsDiffer(write: bool, address: nat, size: nat, tag: nat, i: nat, j: nat)
    requires tag < 256 && i < j < i + 256 && j < |Split(write, address, size, tag)|
    ensures Split(write, address, size, tag)[i].tag != Split(write, address, size, tag)[j].tag
  {
    SplitAt(write, address, size, tag);
  }

  // ---------------------------------------------------------------- 4 KB boundaries

  // Some multiple of 4096 lies strictly inside [start, end).
  predicate Crosses(start: nat, end: nat) {
    start < end && start / PAGE < (end - 1) / PAGE
  }

  predicate OnBoundary(b: nat) { b % 4096 == 0 }

  /** A range crosses a 4 KB boundary exactly when some multiple of 4096 lies strictly inside it. */
  lemma CrossesExactly(start: nat, end: nat)
    ensures Crosses(start, end) <==> exists b: nat :: start < b < end && OnBoundary(b)
  {
    if Crosses(start, end) {
      var b := PAGE * (start / PAGE) + PAGE;
      PageBounds(start);
      PageBounds(end - 1);
      RemainderUnique(b, PAGE, start / PAGE + 1, 0);
      assert OnBoundary(b);
    }
    forall b: nat | start < b < end && OnBoundary(b) ensures Crosses(start, end) {
      PageBounds(start);
      PageBounds(b);
      PageBounds(end - 1);
    }
  }

  /** No transaction crosses a 4 KB boundary (section 2.2.7 of the PCI Express Base Specification)
      exactly when the device address is a multiple of the payload size or the whole transfer stays
      within one 4 KB page. */
  lemma CrossingFree(write: bool, address: nat, size: nat, tag: nat)
    requires tag < 256 && 0 < size
    ensures (forall t :: t in Split(write, address, size, tag) ==> !Crosses(t.address, t.End()))
            <==> address % 256 == 0 || !Crosses(address, address + size)
  {
    var s := Split(write, address, size, tag);
    SplitAt(write, address, size, tag);
    if address % 256 == 0 || !Crosses(address, address + size) {
      forall i | 0 <= i < |s| ensures !Crosses(s[i].address, s[i].End()) {
        PieceStays(address, size, i);
      }
    } else {
      var i := CrossingPiece(address, size);
      assert s[i] in s;
    }
  }

  lemma PieceStays(address: nat, size: nat, i: nat)
    requires 256 * i < size && (address % 256 == 0 || !Crosses(address, address + size))
    ensures !Crosses(address + 256 * i, address + 256 * i + Min(256, size - 256 * i))
  {
  }

  // With an unaligned start, the boundary inside the transfer is inside one of its pieces.
  lemma CrossingPiece(address: nat, size: nat) returns (i: nat)
    requires address % 256 != 0 && Crosses(address, address + size)
    ensures 256 * i < size && Crosses(address + 256 * i, address + 256 * i + Min(256, size - 256 * i))
  {
    var q := address / PAGE;
    var boundary := PAGE * q + PAGE;
    PageBounds(address);
    PageBounds(address + size - 1);
    i := (boundary - address) / 256;
    var start := address + 256 * i;
    if start == boundary {
      RemainderUnique(address, 256, 16 * q + 16 - i, 0);
    }
    PageIs(start, q);
    PageBounds(start + Min(256, size - 256 * i) - 1);
  }

  lemma PageBounds(x: nat)
    ensures PAGE * (x / PAGE) <= x < PAGE * (x / PAGE) + PAGE
  {
  }

  lemma PageIs(x: nat, q: nat)
    requires PAGE * q <= x < PAGE * q + PAGE
    ensures x / PAGE == q
  {
  }

  // ---------------------------------------------------------------- the tunnel

  class Tunnel {
    var nextTag: nat
    var tlpCount: nat
    var bytesSent: nat

    // Every transaction ever sent, oldest first.
    ghost var sent: seq<Tlp>

    // Over all transfers, the i-th transaction carries tag i modulo 256.
    ghost predicate Valid()
      reads this
    {
      && nextTag == |sent| % 256 && tlpCount == Wrap(|sent|)
      && forall i :: 0 <= i < |sent| ==> sent[i].tag == i % 256
    }

    constructor ()
      ensures Valid() && sent == [] && bytesSent == 0
    {
      nextTag, tlpCount, bytesSent, sent := 0, 0, 0, [];
    }

    // pcie_send_tlp without data, as DMA calls it: the payload is not counted.
    method SendTlp(tlp: Tlp)
      modifies this`tlpCount, this`sent
      ensures sent == old(sent) + [tlp] && tlpCount == Wrap(old(tlpCount) + 1)
    {
      tlpCount := Wrap(tlpCount + 1);
      sent := sent + [tlp];
    }

    // Build the header of the next transaction and send it.
    method SendNext(write: bool, address: nat, chunk: nat)
      requires Valid()
      modifies this`nextTag, this`tlpCount, this`sent
      ensures Valid() && nextTag == (old(nextTag) + 1) % 256
      ensures sent == old(sent) + [Tlp(write, address, (chunk + 3) / 4, old(nextTag), chunk)]
    {
      WrapAdd(|sent|, 1);
      NextTag(|sent|);
      hide Wrap;
      var tag := nextTag;
      nextTag := (nextTag + 1) % 256;
      SendTlp(Tlp(write, address, (chunk + 3) / 4, tag, chunk));
    }

    /** pcie_dma_transfer. */
    method Transfer(request: Request) returns (status: Status)
      requires Valid() && request.hostAddr < WORD && request.deviceAddr < WORD
      modifies this
      ensures Valid() && bytesSent == old(bytesSent)
      ensures status == Success <==>
        && 0 < request.size <= 0x4000_0000 && request.hostAddr != 0
        && request.hostAddr + request.size < 0x1_0000_0000_0000_0000
        && request.deviceAddr + request.size < 0x1_0000_0000_0000_0000
      ensures status != Success ==> sent == old(sent) && nextTag == old(nextTag)
      ensures status == Success ==>
        && |sent| == |old(sent)| + (request.size + 255) / 256 && sent[..|old(sent)|] == old(sent)
        && forall i :: |old(sent)| <= i < |sent| ==>
             && sent[i].write == request.write && sent[i].address == request.deviceAddr + 256 * (i - |old(sent)|)
             && sent[i].bytes == Min(256, request.size - 256 * (i - |old(sent)|))
      ensures sent == if Accepted(request)
                      then old(sent) + Split(request.write, request.deviceAddr, request.size, old(nextTag))
                      else old(sent)
    {
      if request.size == 0 || request.size > MAX_TRANSFER {
        return InvalidParam;
      }
      if request.hostAddr == 0 {
        return InvalidParam;
      }
      if Wrap(request.hostAddr + request.size) < request.hostAddr
         || Wrap(request.deviceAddr + request.size) < request.deviceAddr {
        return InvalidParam;
      }
      SplitAt(request.write, request.deviceAddr, request.size, nextTag);
      ghost var before := sent;
      SendAll(request);
      SentAfter(before, Split(request.write, request.deviceAddr, request.size, old(nextTag)), request);
      return Success;
    }

    // The loop of pcie_dma_transfer.
    method SendAll(request: Request)
      requires Valid()
      modifies this`nextTag, this`tlpCount, this`sent
      ensures Valid()
      ensures sent == old(sent) + Split(request.write, request.deviceAddr, request.size, old(nextTag))
    {
      var remaining, devOffset: nat := request.size, 0;
      ghost var planned := Split(request.write, request.deviceAddr, request.size, nextTag);
      while remaining > 0
        invariant Valid() && 0 <= remaining <= request.size && remaining + devOffset == request.size
        invariant sent + Split(request.write, request.deviceAddr + devOffset, remaining, nextTag)
                  == old(sent) + planned
      {
        var chunk := if remaining > MAX_PAYLOAD then MAX_PAYLOAD else remaining;
        ghost var before, tag := sent, nextTag;
        SendNext(request.write, request.deviceAddr + devOffset, chunk);
        remaining := remaining - chunk;
        devOffset := devOffset + chunk;
        ghost var rest := Split(request.write, request.deviceAddr + devOffset, remaining, nextTag);
        assert before + ([sent[|before|]] + rest) == sent + rest;
      }
      assert sent + [] == sent;
    }
  }

  lemma SentAfter(before: seq<Tlp>, s: seq<Tlp>, r: Request)
    requires |s| == (r.size + 255) / 256
    requires forall i :: 0 <= i < |s| ==>
      s[i].write == r.write && s[i].address == r.deviceAddr + 256 * i && s[i].bytes == Min(256, r.size - 256 * i)
    ensures var all := before + s;
            && |all| == |before| + (r.size + 255) / 256 && all[..|before|] == before
            && forall i :: |before| <= i < |all| ==>
                 && all[i].write == r.write && all[i].address == r.deviceAddr + 256 * (i - |before|)
                 && all[i].bytes == Min(256, r.size - 256 * (i - |before|))
  {
  }

  lemma NextTag(n: nat)
    ensures (n % 256 + 1) % 256 == (n + 1) % 256
  {
    if n % 256 == 255 {
      RemainderUnique(n + 1, 256, n / 256 + 1, 0);
    } else {
      RemainderUnique(n + 1, 256, n / 256, n % 256 + 1);
    }
  }
}
