/**
 What each call of nvidia_gpu.c does, outcome by outcome, in terms of the arguments and of the tables
 alone; and the traffic it counts over a run.
 */
module GpuOutcomes {
  import opened Words
  import opened GpuSpec
  import opened GpuTables

  // ---------------------------------------------------------------- allocation

  /** Which requests fail and how; that a failure of the host takes the address all the same; and what a
      success adds. */
  lemma AllocOutcomes(g: Gpu, next: nat, size: nat, kind: Kind, storeOk: bool, recordOk: bool)
    ensures var (g', next', status) := AllocMemory(g, next, size, kind, storeOk, recordOk);
            var n := AlignUp(size, 4096);
            var refused := size == 0 || |g.records| >= 4096 || (kind == VideoMem && n > g.vramFree);
            && (status == InvalidParam <==> size == 0)
            && (status == Success <==> !refused && storeOk && recordOk)
            && next' == (if refused then next else next + n)
            && (status != Success ==> g' == g)
            && (status == Success ==>
                 && |g'.records| == |g.records| + 1 && g'.records[..|g.records|] == g.records
                 && var r := g'.records[|g.records|];
                 && r.addr == next && r.kind == kind && |r.bytes| == n && (forall i :: 0 <= i < n ==> r.bytes[i] == 0)
                 && g' == g.(records := g'.records, vramFree := g'.vramFree)
                 && g'.vramFree == if kind == VideoMem then g.vramFree - n else g.vramFree)
  {
    hide AlignUp;
  }

  // ---------------------------------------------------------------- freeing

  /** A free takes out the first record that starts at the address, if there is one, and keeps the order of
      the others.  The caller's description is credited in any case. */
  lemma FreeOutcomes(g: Gpu, addr: nat, kind: Kind, size: nat)
    ensures var g' := FreeMemory(g, addr, kind, size);
            && g' == g.(records := g'.records, vramFree := g.vramFree + if kind == VideoMem then size else 0)
            && ((forall i :: 0 <= i < |g.records| ==> g.records[i].addr != addr) ==> g'.records == g.records)
            && (forall i :: 0 <= i < |g.records| && g.records[i].addr == addr
                            && (forall j :: 0 <= j < i ==> g.records[j].addr != addr) ==>
                 g'.records == g.records[..i] + g.records[i + 1..])
  {
    forall i | 0 <= i < |g.records| && g.records[i].addr == addr && (forall j :: 0 <= j < i ==> g.records[j].addr != addr)
      ensures i == IndexAt(g.records, addr)
    {
      FirstAt(g.records, addr, i);
    }
    RemoveIs(g.records, IndexAt(g.records, addr));
    hide IndexAt, RemoveIndex;
  }

  lemma RemoveIs<T>(s: seq<T>, i: nat)
    ensures RemoveIndex(s, i) == if i < |s| then s[..i] + s[i + 1..] else s
  {
  }

  lemma FirstAt(records: seq<Record>, addr: nat, i: nat)
    requires i < |records| && records[i].addr == addr && forall j :: 0 <= j < i ==> records[j].addr != addr
    ensures IndexAt(records, addr) == i
  {
    var k := IndexAt(records, addr);
    assert records[k].addr == addr;
  }

  // ---------------------------------------------------------------- copies

  // Tables that differ in their bytes alone are searched alike.
  lemma {:induction false} SearchedAlike(a: seq<Record>, b: seq<Record>, x: nat)
    requires |a| == |b| && forall i :: 0 <= i < |a| ==> SameRange(a[i], b[i])
    ensures IndexOf(a, x) == IndexOf(b, x)
  {
    if a != [] {
      SearchedAlike(a[1..], b[1..], x);
      assert SameRange(a[0], b[0]);
    }
  }

  lemma CoveredAlike(a: seq<Record>, b: seq<Record>, x: nat, n: nat)
    requires |a| == |b| && forall i :: 0 <= i < |a| ==> SameRange(a[i], b[i])
    ensures Covered(a, x, n) <==> Covered(b, x, n)
  {
    SearchedAlike(a, b, x);
    hide IndexOf;
    var i := IndexOf(a, x);
    assert i < |a| ==> SameRange(a[i], b[i]);
  }

  // The byte at x + k of a covered range after data was written at dst: of the data inside it, the old one
  // outside, in the record that was written and in every other.
  lemma ByteAfterWrite(records: seq<Record>, dst: nat, data: seq<Byte>, x: nat, n: nat, k: nat)
    requires data != [] && Covered(records, dst, |data|) && Covered(records, x, n) && k < n
    ensures var after := Write(records, dst, data);
            && Covered(after, x, n)
            && (x + k < dst || dst + |data| <= x + k ==> Read(after, x, n)[k] == Read(records, x, n)[k])
            && (IndexOf(records, x) == IndexOf(records, dst) && dst <= x + k < dst + |data| ==>
                 Read(after, x, n)[k] == data[x + k - dst])
  {
    var after := Write(records, dst, data);
    var i := IndexOf(records, x);
    WriteKeepsRanges(records, dst, data);
    CoveredAlike(records, after, x, n);
    SearchedAlike(records, after, x);
    ReadAt(records, x, n, k);
    ReadAt(after, x, n, k);
    BytesOfRecord(records, dst, data, i);
    hide *;
    assert records[i].Has(x + k);
  }

  // One byte of a covered range, in its record.
  lemma ReadAt(records: seq<Record>, x: nat, n: nat, k: nat)
    requires Covered(records, x, n) && k < n
    ensures var i := IndexOf(records, x);
            i < |records| && records[i].Has(x + k) && Read(records, x, n)[k] == records[i].bytes[x + k - records[i].addr]
  {
    hide IndexOf;
  }

  // The bytes of a record after a write.
  lemma BytesOfRecord(records: seq<Record>, dst: nat, data: seq<Byte>, i: nat)
    requires Covered(records, dst, |data|) && i < |records|
    ensures |Write(records, dst, data)| == |records|
    ensures var r, later := records[i], Write(records, dst, data)[i].bytes;
            && |later| == |r.bytes|
            && forall y :: r.Has(y) ==>
                 && (y < dst || dst + |data| <= y ==> later[y - r.addr] == r.bytes[y - r.addr])
                 && (i == IndexOf(records, dst) && dst <= y < dst + |data| ==> later[y - r.addr] == data[y - dst])
  {
    hide IndexOf;
  }

  /** An upload to a covered range: the range reads back as the data, every byte outside it as before, and
      the traffic grows by its length. */
  lemma UploadOutcome(g: Gpu, dst: nat, data: seq<Byte>)
    requires data != [] && Covered(g.records, dst, |data|)
    ensures var g' := CopyToDevice(g, dst, data);
            && g' == g.(records := g'.records, transferred := g.transferred + |data|)
            && Covered(g'.records, dst, |data|) && Read(g'.records, dst, |data|) == data
            && forall x: nat, n: nat :: 0 < n && Covered(g.records, x, n) ==>
                 && Covered(g'.records, x, n)
                 && forall k :: 0 <= k < n && (x + k < dst || dst + |data| <= x + k) ==>
                      Read(g'.records, x, n)[k] == Read(g.records, x, n)[k]
  {
    var g' := CopyToDevice(g, dst, data);
    hide Covered, Write, Read, IndexOf;
    forall k | 0 <= k < |data| ensures Covered(g'.records, dst, |data|) && Read(g'.records, dst, |data|)[k] == data[k] {
      ByteAfterWrite(g.records, dst, data, dst, |data|, k);
    }
    assert Covered(g'.records, dst, |data|) by {
      ByteAfterWrite(g.records, dst, data, dst, |data|, 0);
    }
    forall x: nat, n: nat | 0 < n && Covered(g.records, x, n)
      ensures Covered(g'.records, x, n)
      ensures forall k :: 0 <= k < n && (x + k < dst || dst + |data| <= x + k) ==>
                Read(g'.records, x, n)[k] == Read(g.records, x, n)[k]
    {
      ByteAfterWrite(g.records, dst, data, x, n, 0);
      forall k | 0 <= k < n && (x + k < dst || dst + |data| <= x + k)
        ensures Read(g'.records, x, n)[k] == Read(g.records, x, n)[k]
      {
        ByteAfterWrite(g.records, dst, data, x, n, k);
      }
    }
  }

  /** An upload to any other range changes nothing but the traffic, and an empty one nothing at all. */
  lemma UploadMissed(g: Gpu, dst: nat, data: seq<Byte>)
    requires data == [] || !Covered(g.records, dst, |data|)
    ensures CopyToDevice(g, dst, data) == g.(transferred := g.transferred + |data|)
  {
  }

  /** A download delivers what a covered range holds and leaves the buffer alone otherwise. */
  lemma DownloadOutcome(g: Gpu, buffer: seq<Byte>, src: nat)
    ensures Covered(g.records, src, |buffer|) ==> CopyToHost(g, buffer, src) == Read(g.records, src, |buffer|)
    ensures !Covered(g.records, src, |buffer|) ==> CopyToHost(g, buffer, src) == buffer
  {
    hide Covered, Read;
  }

  /** A copy on the device counts no traffic.  It is an upload of what the source holds when both ranges are
      covered, and nothing otherwise. */
  lemma MoveOutcome(g: Gpu, dst: nat, src: nat, n: nat)
    requires 0 < n
    ensures var g' := CopyOnDevice(g, dst, src, n);
            && g' == g.(records := g'.records)
            && (!Covered(g.records, src, n) || !Covered(g.records, dst, n) ==> g' == g)
            && (Covered(g.records, src, n) && Covered(g.records, dst, n) ==>
                 Covered(g'.records, dst, n) && Read(g'.records, dst, n) == Read(g.records, src, n))
  {
    if Covered(g.records, src, n) && Covered(g.records, dst, n) {
      UploadOutcome(g, dst, Read(g.records, src, n));
    }
    hide Covered, Read;
  }

  // ---------------------------------------------------------------- channels

  /** A new channel is last, numbered by its place, and its push buffer of 1 MiB is SYSTEM memory, so it costs
      no VRAM; 64 channels are the limit. */
  lemma CreateOutcomes(g: Gpu, next: nat, channelOk: bool, storeOk: bool, recordOk: bool)
    ensures var (g', next', status) := CreateChannel(g, next, channelOk, storeOk, recordOk);
            && (status == Success <==> |g.channels| < 64 && channelOk && |g.records| < 4096 && storeOk && recordOk)
            && (status != Success ==> status == NoMemory && g' == g)
            && next' == (if |g.channels| < 64 && channelOk && |g.records| < 4096 then next + 0x10_0000 else next)
            && (status == Success ==>
                 && g'.channels == g.channels + [Channel(|g.channels|, next)] && |g'.records| == |g.records| + 1
                 && g'.records[..|g.records|] == g.records
                 && var r := g'.records[|g.records|];
                 && r.addr == next && r.kind == SystemMem && |r.bytes| == 0x10_0000
                 && g' == g.(records := g'.records, channels := g'.channels))
  {
    AlignUpTo(0x10_0000, 4096, 256);
    AllocOutcomes(g, next, 0x10_0000, SystemMem, storeOk, recordOk);
    hide AlignUp, AllocMemory;
  }

  /** Destroying a channel takes out its push buffer and its entry, and credits nothing. */
  lemma DestroyOutcome(g: Gpu, k: nat)
    requires k < |g.channels|
    ensures var g' := DestroyChannel(g, k);
            && g'.channels == g.channels[..k] + g.channels[k + 1..]
            && g'.records == FreeMemory(g, g.channels[k].base, SystemMem, 0).records
            && g' == g.(records := g'.records, channels := g'.channels)
  {
  }

  // ---------------------------------------------------------------- traffic

  // Bytes that a run moves between the host and GPU h.
  function Traffic(ops: seq<Op>, h: nat): nat {
    if ops == [] then 0 else
    (if ops[0].gpu != h then 0 else match ops[0] case ToDevice(_, _, data) => |data| case ToHost(_, _, n) => n case _ => 0)
    + Traffic(ops[1..], h)
  }

  /** Over every run the traffic counted is the bytes asked for in both directions, covered or not. */
  lemma {:induction false} RunTraffic(s: System, ops: seq<Op>, h: nat)
    requires LegalRun(s, ops) && h < |s.gpus|
    ensures |Run(s, ops).gpus| == |s.gpus| && Run(s, ops).gpus[h].transferred == s.gpus[h].transferred + Traffic(ops, h)
    decreases |ops|
  {
    if ops != [] {
      StepTraffic(s.gpus[ops[0].gpu], s.next, ops[0]);
      hide StepGpu;
      RunTraffic(Step(s, ops[0]), ops[1..], h);
    }
  }

  lemma StepTraffic(g: Gpu, next: nat, op: Op)
    requires op.Destroy? ==> op.k < |g.channels|
    ensures StepGpu(g, next, op).0.transferred ==
            g.transferred + match op case ToDevice(_, _, data) => |data| case ToHost(_, _, n) => n case _ => 0
  {
    hide AlignUp, Write, Covered, RemoveIndex;
  }
}
