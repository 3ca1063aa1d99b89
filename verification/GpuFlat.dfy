/**
 A flat memory, and the proof that the record tables with their backing stores refine it.

 The flat machine knows live blocks and one byte per address; it has no tables, no order and no
 search.  `RunRefines` shows that over every run of allocations, frees, copies and channel calls on
 any number of GPUs the tables answer every read exactly as the flat machine does.
 */
module GpuFlat {
  import opened Words
  import opened GpuSpec
  import opened GpuTables

  datatype Option<T> = None | Some(value: T)

  datatype Block = Block(gpu: nat, size: nat)

  datatype Flat = Flat(live: map<nat, Block>, cells: map<nat, Byte>)

  datatype Event =
    | Granted(gpu: nat, addr: nat, size: nat)
    | Released(gpu: nat, addr: nat)
    | Put(gpu: nat, dst: nat, data: seq<Byte>)
    | Get(gpu: nat, from: nat, count: nat)
    | Move(gpu: nat, dst: nat, src: nat, n: nat)
    | Idle

  // ---------------------------------------------------------------- the flat machine

  predicate Encloses(f: Flat, g: nat, a: nat, x: nat, n: nat) {
    a in f.live && f.live[a].gpu == g && a <= x && x + n <= a + f.live[a].size
  }

  // [x, x + n) lies inside one live block of GPU g.
  ghost predicate Inside(f: Flat, g: nat, x: nat, n: nat) {
    exists a :: Encloses(f, g, a, x, n)
  }

  predicate Within(y: int, a: nat, n: nat) { a <= y < a + n }

  function Range(a: nat, n: nat): (r: set<nat>)
    ensures forall y: nat :: y in r <==> Within(y, a, n)
  {
    set y: nat | a <= y < a + n && Within(y, a, n)
  }

  function GrantBlock(f: Flat, g: nat, a: nat, n: nat): Flat {
    Flat(f.live[a := Block(g, n)], map y | y in f.cells.Keys + Range(a, n) :: if Within(y, a, n) then 0 else f.cells[y])
  }

  function ReleaseBlock(f: Flat, g: nat, a: nat): Flat {
    if a !in f.live || f.live[a].gpu != g then f else
    Flat(f.live - {a}, f.cells - Range(a, f.live[a].size))
  }

  ghost function PutBytes(f: Flat, g: nat, x: nat, data: seq<Byte>): Flat {
    if !Inside(f, g, x, |data|) then f else
    f.(cells := map y | y in f.cells :: if Within(y, x, |data|) then data[y - x] else f.cells[y])
  }

  function CellAt(f: Flat, y: nat): Byte { if y in f.cells then f.cells[y] else 0 }

  function Bytes(f: Flat, x: nat, n: nat): (r: seq<Byte>)
    ensures |r| == n
  {
    seq(n, i requires 0 <= i => CellAt(f, x + i))
  }

  ghost function Apply(f: Flat, e: Event): Flat {
    match e
    case Granted(g, a, n) => GrantBlock(f, g, a, n)
    case Released(g, a) => ReleaseBlock(f, g, a)
    case Put(g, x, data) => PutBytes(f, g, x, data)
    case Move(g, dst, src, n) => if Inside(f, g, src, n) then PutBytes(f, g, dst, Bytes(f, src, n)) else f
    case Get(_, _, _) => f
    case Idle => f
  }

  // What a read of the flat machine returns; nothing for other events and for ranges that are not live.
  ghost function Answer(f: Flat, e: Event): Option<seq<Byte>> {
    if e.Get? && Inside(f, e.gpu, e.from, e.count) then Some(Bytes(f, e.from, e.count)) else None
  }

  ghost function FlatTrace(f: Flat, events: seq<Event>): seq<Option<seq<Byte>>>
    decreases |events|
  {
    if events == [] then [] else [Answer(f, events[0])] + FlatTrace(Apply(f, events[0]), events[1..])
  }

  // ---------------------------------------------------------------- what the tables do, as events

  function EventOf(s: System, op: Op): Event
    requires Legal(s, op)
  {
    match op
    case Free(g, a, _, _) => Released(g, a)
    case Destroy(g, k) => Released(g, s.gpus[g].channels[k].base)
    case ToDevice(g, dst, data) => if data == [] then Idle else Put(g, dst, data)
    case ToHost(g, from, count) => if count == 0 then Idle else Get(g, from, count)
    case OnDevice(g, dst, src, n) => if n == 0 then Idle else Move(g, dst, src, n)
    case _ => if Grant(s, op) == [] then Idle else Granted(op.gpu, Grant(s, op)[0].addr, Grant(s, op)[0].size)
  }

  function Events(s: System, ops: seq<Op>): seq<Event>
    requires LegalRun(s, ops)
    decreases |ops|
  {
    if ops == [] then [] else [EventOf(s, ops[0])] + Events(Step(s, ops[0]), ops[1..])
  }

  // What a device-to-host copy delivers.
  function Delivered(s: System, op: Op): Option<seq<Byte>>
    requires Legal(s, op)
  {
    if op.ToHost? && op.count != 0 && Covered(s.gpus[op.gpu].records, op.from, op.count)
    then Some(Read(s.gpus[op.gpu].records, op.from, op.count)) else None
  }

  function Trace(s: System, ops: seq<Op>): seq<Option<seq<Byte>>>
    requires LegalRun(s, ops)
    decreases |ops|
  {
    if ops == [] then [] else [Delivered(s, ops[0])] + Trace(Step(s, ops[0]), ops[1..])
  }

  // ---------------------------------------------------------------- the refinement relation

  ghost predicate Mirrored(r: Record, g: nat, f: Flat) {
    && r.addr in f.live && f.live[r.addr] == Block(g, |r.bytes|)
    && forall x :: r.Has(x) ==> x in f.cells && f.cells[x] == r.bytes[x - r.addr]
  }

  ghost predicate Rooted(s: System, f: Flat, a: nat)
    requires a in f.live
  {
    f.live[a].gpu < |s.gpus| && exists r :: r in s.gpus[f.live[a].gpu].records && r.addr == a
  }

  ghost predicate Agree(s: System, f: Flat) {
    && (forall g, i :: 0 <= g < |s.gpus| && 0 <= i < |s.gpus[g].records| ==> Mirrored(s.gpus[g].records[i], g, f))
    && (forall a :: a in f.live ==> Rooted(s, f, a))
  }

  lemma InsideIsCovered(s: System, f: Flat, g: nat, x: nat, n: nat)
    requires Inv(s) && Agree(s, f) && g < |s.gpus| && 0 < n && Inside(f, g, x, n)
    ensures Covered(s.gpus[g].records, x, n)
  {
    var records := s.gpus[g].records;
    var a :| Encloses(f, g, a, x, n);
    assert Rooted(s, f, a);
    var r :| r in records && r.addr == a;
    var i :| 0 <= i < |records| && records[i] == r;
    assert Mirrored(records[i], g, f);
    IndexOfUnique(records, s.next, i, x);
  }

  /** A copy acts exactly when its device range lies inside one live allocation of that GPU. */
  lemma CoveredIffInside(s: System, f: Flat, g: nat, x: nat, n: nat)
    requires Inv(s) && Agree(s, f) && g < |s.gpus| && 0 < n
    ensures Covered(s.gpus[g].records, x, n) <==> Inside(f, g, x, n)
  {
    var records := s.gpus[g].records;
    if Inside(f, g, x, n) {
      InsideIsCovered(s, f, g, x, n);
    }
    if Covered(records, x, n) {
      var i := IndexOf(records, x);
      assert Mirrored(records[i], g, f);
      assert Encloses(f, g, records[i].addr, x, n);
    }
  }

  lemma ReadAgrees(s: System, f: Flat, g: nat, x: nat, n: nat)
    requires Agree(s, f) && g < |s.gpus| && 0 < n && Covered(s.gpus[g].records, x, n)
    ensures Read(s.gpus[g].records, x, n) == Bytes(f, x, n)
  {
    var records := s.gpus[g].records;
    var i := IndexOf(records, x);
    var r := records[i];
    assert Mirrored(r, g, f);
    forall k | 0 <= k < n ensures Read(records, x, n)[k] == Bytes(f, x, n)[k] {
      assert r.Has(x + k);
      assert Bytes(f, x, n)[k] == CellAt(f, x + k);
    }
  }

  // ---------------------------------------------------------------- one step

  predicate Clear(r: Record, a: nat, n: nat) { r.End() <= a || a + n <= r.addr }

  // f and f2 differ at most inside [a, a + n).
  ghost predicate SameOutside(f: Flat, f2: Flat, a: nat, n: nat) {
    forall y: nat :: !Within(y, a, n) ==>
      && (y in f.live <==> y in f2.live) && (y in f.live ==> f.live[y] == f2.live[y])
      && (y in f.cells <==> y in f2.cells) && (y in f.cells ==> f.cells[y] == f2.cells[y])
  }

  lemma MirrorKept(r: Record, g: nat, f: Flat, f2: Flat, a: nat, n: nat)
    requires Mirrored(r, g, f) && Clear(r, a, n) && SameOutside(f, f2, a, n) && r.bytes != []
    ensures Mirrored(r, g, f2)
  {
    assert r.Has(r.addr) && !Within(r.addr, a, n);
    forall x | r.Has(x) ensures x in f2.cells && f2.cells[x] == r.bytes[x - r.addr] {
      assert !Within(x, a, n);
    }
  }

  // The table of one GPU agrees with the blocks the flat machine gives that GPU.
  ghost predicate TableAgrees(records: seq<Record>, h: nat, f: Flat) {
    && (forall i :: 0 <= i < |records| ==> Mirrored(records[i], h, f))
    && (forall a :: a in f.live && f.live[a].gpu == h ==> exists r :: r in records && r.addr == a)
  }

  lemma UpdateAgrees(s: System, h: nat, g: Gpu, next: nat, f: Flat, f2: Flat, a: nat, n: nat)
    requires Inv(s) && Agree(s, f) && h < |s.gpus| && SameOutside(f, f2, a, n)
    requires forall k, i :: 0 <= k < |s.gpus| && k != h && 0 <= i < |s.gpus[k].records| ==> Clear(s.gpus[k].records[i], a, n)
    requires TableAgrees(g.records, h, f2)
    requires forall b :: b in f2.live && f2.live[b].gpu != h ==> b in f.live && f.live[b] == f2.live[b]
    ensures Agree(System(s.gpus[h := g], next), f2)
  {
    var t := System(s.gpus[h := g], next);
    forall k, i | 0 <= k < |t.gpus| && 0 <= i < |t.gpus[k].records| ensures Mirrored(t.gpus[k].records[i], k, f2) {
      if k != h {
        MirrorKept(s.gpus[k].records[i], k, f, f2, a, n);
      }
    }
    forall b | b in f2.live ensures Rooted(t, f2, b) {
      if f2.live[b].gpu != h {
        assert Rooted(s, f, b);
      }
    }
  }

  lemma TableOf(s: System, f: Flat, h: nat)
    requires Agree(s, f) && h < |s.gpus|
    ensures TableAgrees(s.gpus[h].records, h, f)
  {
    forall a | a in f.live && f.live[a].gpu == h ensures exists r :: r in s.gpus[h].records && r.addr == a {
      assert Rooted(s, f, a);
    }
  }

  // The other tables hold nothing of a record of GPU h.
  lemma OthersClear(s: System, h: nat, i: nat, a: nat, n: nat)
    requires Inv(s) && h < |s.gpus| && i < |s.gpus[h].records| && s.gpus[h].records[i].Holds(a, n)
    ensures forall k, j :: 0 <= k < |s.gpus| && k != h && 0 <= j < |s.gpus[k].records| ==> Clear(s.gpus[k].records[j], a, n)
  {
    forall k, j | 0 <= k < |s.gpus| && k != h && 0 <= j < |s.gpus[k].records| ensures Clear(s.gpus[k].records[j], a, n) {
      if k < h {
        assert Apart(s.gpus[k].records[j], s.gpus[h].records[i]);
      } else {
        assert Apart(s.gpus[h].records[i], s.gpus[k].records[j]);
      }
    }
  }

  lemma GrantIsLocal(f: Flat, h: nat, a: nat, n: nat)
    requires 0 < n
    ensures SameOutside(f, GrantBlock(f, h, a, n), a, n)
  {
    assert Within(a, a, n);
  }

  lemma GrantMirrors(f: Flat, h: nat, a: nat, kind: Kind, n: nat)
    ensures Mirrored(Record(a, kind, Zeros(n)), h, GrantBlock(f, h, a, n))
  {
    var r := Record(a, kind, Zeros(n));
    var f2 := GrantBlock(f, h, a, n);
    forall x | r.Has(x) ensures x in f2.cells && f2.cells[x] == r.bytes[x - a] {
      assert Within(x, a, n);
    }
  }

  lemma AppendAgrees(records: seq<Record>, next: nat, h: nat, f: Flat, kind: Kind, n: nat)
    requires Ordered(records, next) && TableAgrees(records, h, f) && 0 < n
    ensures TableAgrees(records + [Record(next, kind, Zeros(n))], h, GrantBlock(f, h, next, n))
  {
    var f2 := GrantBlock(f, h, next, n);
    var last := Record(next, kind, Zeros(n));
    var later := records + [last];
    assert later[|records|] == last;
    GrantIsLocal(f, h, next, n);
    GrantMirrors(f, h, next, kind, n);
    assert f2.live == f.live[next := Block(h, n)];
    hide GrantBlock, SameOutside, Mirrored;
    forall i | 0 <= i < |later| ensures Mirrored(later[i], h, f2) {
      if i < |records| {
        MirrorKept(records[i], h, f, f2, next, n);
      }
    }
    forall a | a in f2.live && f2.live[a].gpu == h ensures exists r :: r in later && r.addr == a {
      if a == next {
        assert last in later;
      } else {
        var r :| r in records && r.addr == a;
        assert r in later;
      }
    }
  }

  // ---- releases

  lemma ReleaseIsLocal(f: Flat, h: nat, a: nat)
    requires a in f.live && f.live[a].gpu == h && 0 < f.live[a].size
    ensures SameOutside(f, ReleaseBlock(f, h, a), a, f.live[a].size)
  {
    assert Within(a, a, f.live[a].size);
  }

  lemma RemoveMirrors(records: seq<Record>, next: nat, h: nat, f: Flat, i: nat, j: nat)
    requires Ordered(records, next) && TableAgrees(records, h, f) && i < |records| && j < |records| && j != i
    ensures Mirrored(records[j], h, ReleaseBlock(f, h, records[i].addr))
  {
    assert Mirrored(records[i], h, f) && Mirrored(records[j], h, f);
    assert Clear(records[j], records[i].addr, |records[i].bytes|) && 0 < |records[i].bytes|;
    ReleaseIsLocal(f, h, records[i].addr);
    MirrorKept(records[j], h, f, ReleaseBlock(f, h, records[i].addr), records[i].addr, |records[i].bytes|);
  }

  // What is left when s[i] goes: the other elements, and nothing else.
  lemma RemoveIndexElements<T>(s: seq<T>, i: nat, k: nat)
    requires i < |s| && k < |s| && k != i
    ensures s[k] in RemoveIndex(s, i)
    ensures forall j :: 0 <= j < |RemoveIndex(s, i)| ==> RemoveIndex(s, i)[j] == s[if j < i then j else j + 1]
  {
    assert RemoveIndex(s, i)[if k < i then k else k - 1] == s[k];
  }

  lemma RemoveAgrees(records: seq<Record>, next: nat, h: nat, f: Flat, i: nat)
    requires Ordered(records, next) && TableAgrees(records, h, f) && i < |records|
    ensures TableAgrees(RemoveIndex(records, i), h, ReleaseBlock(f, h, records[i].addr))
  {
    var f2 := ReleaseBlock(f, h, records[i].addr);
    var later := RemoveIndex(records, i);
    assert Mirrored(records[i], h, f);
    assert f2.live == f.live - {records[i].addr};
    hide ReleaseBlock, Mirrored;
    forall j | 0 <= j < |later| ensures Mirrored(later[j], h, f2) {
      RemoveMirrors(records, next, h, f, i, if j < i then j else j + 1);
    }
    forall b | b in f2.live && f2.live[b].gpu == h ensures exists r :: r in later && r.addr == b {
      var r :| r in records && r.addr == b;
      var k :| 0 <= k < |records| && records[k] == r;
      RemoveIndexElements(records, i, k);
    }
  }

  // An address at which GPU h has no record is not a block of GPU h.
  lemma NothingToRelease(records: seq<Record>, h: nat, f: Flat, a: nat)
    requires TableAgrees(records, h, f) && IndexAt(records, a) == |records|
    ensures ReleaseBlock(f, h, a) == f
  {
  }

  // ---- writes

  /** A covered write changes exactly the bytes of its range, in every record. */
  lemma WritePointwise(records: seq<Record>, next: nat, x: nat, data: seq<Byte>, i: nat, y: nat)
    requires Ordered(records, next) && data != [] && Covered(records, x, |data|)
    requires i < |records| && records[i].Has(y)
    ensures |Write(records, x, data)| == |records|
    ensures var later := Write(records, x, data)[i];
            && SameRange(later, records[i])
            && later.bytes[y - records[i].addr] == if Within(y, x, |data|) then data[y - x] else records[i].bytes[y - records[i].addr]
  {
    var k := IndexOf(records, x);
    if Within(y, x, |data|) {
      IndexOfUnique(records, next, i, y);
      IndexOfUnique(records, next, k, y);
    }
  }

  lemma PutIsLocal(f: Flat, h: nat, x: nat, data: seq<Byte>)
    ensures SameOutside(f, PutBytes(f, h, x, data), x, |data|)
    ensures PutBytes(f, h, x, data).live == f.live
  {
    hide Inside;
  }

  lemma WriteAgrees(records: seq<Record>, next: nat, h: nat, f: Flat, x: nat, data: seq<Byte>)
    requires Ordered(records, next) && TableAgrees(records, h, f) && data != []
    requires Covered(records, x, |data|) && Inside(f, h, x, |data|)
    ensures TableAgrees(Write(records, x, data), h, PutBytes(f, h, x, data))
  {
    var f2 := PutBytes(f, h, x, data);
    var later := Write(records, x, data);
    WriteKeepsRanges(records, x, data);
    hide Inside, Write, Covered;
    forall i | 0 <= i < |later| ensures Mirrored(later[i], h, f2) {
      assert SameRange(records[i], later[i]) && Mirrored(records[i], h, f);
      forall y | later[i].Has(y) ensures y in f2.cells && f2.cells[y] == later[i].bytes[y - later[i].addr] {
        WritePointwise(records, next, x, data, i, y);
        assert records[i].Has(y);
      }
    }
    forall a | a in f2.live && f2.live[a].gpu == h ensures exists r :: r in later && r.addr == a {
      var r :| r in records && r.addr == a;
      var k :| 0 <= k < |records| && records[k] == r;
      assert SameRange(records[k], later[k]);
    }
  }

  // ---------------------------------------------------------------- the simulation

  // Writing on one GPU: both sides act, or neither does.
  lemma PutAgrees(s: System, f: Flat, h: nat, x: nat, data: seq<Byte>, g: Gpu)
    requires Inv(s) && Agree(s, f) && h < |s.gpus| && data != []
    requires g.records == Write(s.gpus[h].records, x, data)
    ensures Agree(System(s.gpus[h := g], s.next), PutBytes(f, h, x, data))
  {
    var records := s.gpus[h].records;
    CoveredIffInside(s, f, h, x, |data|);
    PutIsLocal(f, h, x, data);
    TableOf(s, f, h);
    if Covered(records, x, |data|) {
      WriteAgrees(records, s.next, h, f, x, data);
      OthersClear(s, h, IndexOf(records, x), x, |data|);
      hide Inside, Covered, Write, SameOutside, PutBytes, TableAgrees, Inv, Agree;
      UpdateAgrees(s, h, g, s.next, f, PutBytes(f, h, x, data), x, |data|);
    } else {
      hide Inside, Covered, Inv, Mirrored;
      SameTables(s, f, h, g);
    }
  }

  lemma SameTables(s: System, f: Flat, h: nat, g: Gpu)
    requires Agree(s, f) && h < |s.gpus| && g.records == s.gpus[h].records
    ensures Agree(System(s.gpus[h := g], s.next), f)
  {
    hide Mirrored;
    var t := System(s.gpus[h := g], s.next);
    forall k, i | 0 <= k < |t.gpus| && 0 <= i < |t.gpus[k].records| ensures Mirrored(t.gpus[k].records[i], k, f) {
      assert Mirrored(s.gpus[k].records[i], k, f);
    }
    forall a | a in f.live ensures Rooted(t, f, a) {
      assert Rooted(s, f, a);
    }
  }

  lemma ReleaseAgrees(s: System, f: Flat, h: nat, a: nat, g: Gpu)
    requires Inv(s) && Agree(s, f) && h < |s.gpus|
    requires g.records == RemoveIndex(s.gpus[h].records, IndexAt(s.gpus[h].records, a))
    ensures Agree(System(s.gpus[h := g], s.next), ReleaseBlock(f, h, a))
  {
    var records := s.gpus[h].records;
    var i := IndexAt(records, a);
    TableOf(s, f, h);
    if i < |records| {
      assert Mirrored(records[i], h, f);
      var n := |records[i].bytes|;
      RemoveAgrees(records, s.next, h, f, i);
      OthersClear(s, h, i, a, n);
      ReleaseIsLocal(f, h, a);
      assert ReleaseBlock(f, h, a).live == f.live - {a};
      hide SameOutside, TableAgrees, Inv, Agree, ReleaseBlock, IndexAt, RemoveIndex, Mirrored;
      UpdateAgrees(s, h, g, s.next, f, ReleaseBlock(f, h, a), a, n);
    } else {
      NothingToRelease(records, h, f, a);
      hide TableAgrees, ReleaseBlock, Mirrored;
      SameTables(s, f, h, g);
    }
  }

  lemma GrantAgrees(s: System, f: Flat, h: nat, kind: Kind, n: nat, g: Gpu, next: nat)
    requires Inv(s) && Agree(s, f) && h < |s.gpus| && 0 < n
    requires g.records == s.gpus[h].records + [Record(s.next, kind, Zeros(n))]
    ensures Agree(System(s.gpus[h := g], next), GrantBlock(f, h, s.next, n))
  {
    TableOf(s, f, h);
    AppendAgrees(s.gpus[h].records, s.next, h, f, kind, n);
    GrantIsLocal(f, h, s.next, n);
    assert GrantBlock(f, h, s.next, n).live == f.live[s.next := Block(h, n)];
    hide SameOutside, TableAgrees, Agree, GrantBlock, Mirrored;
    UpdateAgrees(s, h, g, next, f, GrantBlock(f, h, s.next, n), s.next, n);
  }

  // Allocating calls: either one record is appended at the counter, or the table is as it was.
  lemma GrantCases(g: Gpu, next: nat, op: Op)
    requires (op.Alloc? && op.size + DEVICE_PAGE - 1 < WORD) || op.Create?
    ensures var g' := StepGpu(g, next, op).0;
            g'.records == g.records || exists kind, n {:trigger Record(next, kind, Zeros(n))} ::
              0 < n && g'.records == g.records + [Record(next, kind, Zeros(n))]
  {
    var size := if op.Alloc? then op.size else PUSH_BUFFER;
    if size != 0 {
      GrantedPages(size);
    }
    hide AlignUp;
    var n := AlignUp(size, DEVICE_PAGE);
    var kind := if op.Alloc? then op.kind else SystemMem;
    assert |Zeros(n)| == n;
    var g' := StepGpu(g, next, op).0;
    assert g'.records == g.records || g'.records == g.records + [Record(next, kind, Zeros(n))];
  }

  lemma StepGrantAgrees(s: System, f: Flat, op: Op)
    requires Inv(s) && Agree(s, f) && Legal(s, op) && (op.Alloc? || op.Create?)
    ensures Agree(Step(s, op), Apply(f, EventOf(s, op)))
  {
    var h := op.gpu;
    var (g, next) := StepGpu(s.gpus[h], s.next, op);
    GrantCases(s.gpus[h], s.next, op);
    hide StepGpu, Agree, Inv;
    if g.records == s.gpus[h].records {
      SameTables(s, f, h, g);
      NextIrrelevant(System(s.gpus[h := g], s.next), f, next);
    } else {
      var kind, n {:trigger Record(s.next, kind, Zeros(n))} :| 0 < n && g.records == s.gpus[h].records + [Record(s.next, kind, Zeros(n))];
      GrantAgrees(s, f, h, kind, n, g, next);
    }
  }

  lemma NextIrrelevant(s: System, f: Flat, next: nat)
    requires Agree(s, f)
    ensures Agree(s.(next := next), f)
  {
    forall a | a in f.live ensures Rooted(s.(next := next), f, a) {
      assert Rooted(s, f, a);
    }
  }

  // What a device-to-device copy is on either side, once its source range is known to be live or not.
  lemma MoveIs(g: Gpu, f: Flat, h: nat, dst: nat, src: nat, n: nat)
    requires 0 < n
    ensures Covered(g.records, src, n) ==>
              CopyOnDevice(g, dst, src, n) == g.(records := Write(g.records, dst, Read(g.records, src, n)))
    ensures !Covered(g.records, src, n) ==> CopyOnDevice(g, dst, src, n) == g
    ensures Apply(f, Move(h, dst, src, n)) == if Inside(f, h, src, n) then PutBytes(f, h, dst, Bytes(f, src, n)) else f
  {
    hide Covered, Write, Read, Inside, PutBytes, Bytes;
  }

  lemma MoveAgrees(s: System, f: Flat, h: nat, dst: nat, src: nat, n: nat)
    requires Inv(s) && Agree(s, f) && h < |s.gpus| && 0 < n
    ensures Agree(System(s.gpus[h := CopyOnDevice(s.gpus[h], dst, src, n)], s.next), Apply(f, Move(h, dst, src, n)))
  {
    hide *;
    var records := s.gpus[h].records;
    CoveredIffInside(s, f, h, src, n);
    MoveIs(s.gpus[h], f, h, dst, src, n);
    if Covered(records, src, n) {
      ReadAgrees(s, f, h, src, n);
      PutAgrees(s, f, h, dst, Read(records, src, n), CopyOnDevice(s.gpus[h], dst, src, n));
    } else {
      SameTables(s, f, h, s.gpus[h]);
    }
  }

  // Every call keeps the tables and the flat machine in agreement.
  lemma StepAgrees(s: System, f: Flat, op: Op)
    requires Inv(s) && Agree(s, f) && Legal(s, op)
    ensures Agree(Step(s, op), Apply(f, EventOf(s, op)))
  {
    var h := op.gpu;
    hide Agree, Inv, Write, PutBytes, ReleaseBlock, RemoveIndex, IndexAt, Inside, CopyOnDevice;
    var g := StepGpu(s.gpus[h], s.next, op).0;
    match op
    case Alloc(_, _, _, _, _) => StepGrantAgrees(s, f, op);
    case Create(_, _, _, _) => StepGrantAgrees(s, f, op);
    case Free(_, a, _, _) => ReleaseAgrees(s, f, h, a, g);
    case Destroy(_, k) => ReleaseAgrees(s, f, h, s.gpus[h].channels[k].base, g);
    case ToDevice(_, dst, data) =>
      if data == [] {
        SameTables(s, f, h, g);
      } else {
        PutAgrees(s, f, h, dst, data, g);
      }
    case ToHost(_, _, _) => SameTables(s, f, h, g);
    case OnDevice(_, dst, src, n) =>
      if n == 0 {
        assert g == s.gpus[h] by { NoMove(s.gpus[h], dst, src); }
        SameTables(s, f, h, g);
      } else {
        MoveAgrees(s, f, h, dst, src, n);
      }
  }

  lemma NoMove(g: Gpu, dst: nat, src: nat)
    ensures CopyOnDevice(g, dst, src, 0) == g
  {
  }

  // What is delivered and answered for one device-to-host copy.
  lemma AnswerIs(s: System, f: Flat, op: Op)
    requires Legal(s, op)
    ensures !(op.ToHost? && op.count != 0) ==> Delivered(s, op) == Answer(f, EventOf(s, op)) == None
    ensures op.ToHost? && op.count != 0 ==>
      && op.gpu < |s.gpus|
      && (Covered(s.gpus[op.gpu].records, op.from, op.count) ==>
            Delivered(s, op) == Some(Read(s.gpus[op.gpu].records, op.from, op.count)))
      && (!Covered(s.gpus[op.gpu].records, op.from, op.count) ==> Delivered(s, op) == None)
      && Answer(f, EventOf(s, op)) == if Inside(f, op.gpu, op.from, op.count) then Some(Bytes(f, op.from, op.count)) else None
  {
    hide Covered, Read, Inside, Bytes, Grant, Step;
  }

  lemma AnswerAgrees(s: System, f: Flat, op: Op)
    requires Inv(s) && Agree(s, f) && Legal(s, op)
    ensures Delivered(s, op) == Answer(f, EventOf(s, op))
  {
    hide *;
    AnswerIs(s, f, op);
    if op.ToHost? && op.count != 0 {
      CoveredIffInside(s, f, op.gpu, op.from, op.count);
      if Covered(s.gpus[op.gpu].records, op.from, op.count) {
        ReadAgrees(s, f, op.gpu, op.from, op.count);
      }
    }
  }

  /** Over every run the tables deliver, read by read, exactly what the flat memory holds. */
  lemma {:induction false} RunRefines(s: System, f: Flat, ops: seq<Op>)
    requires Inv(s) && Agree(s, f) && LegalRun(s, ops)
    ensures Trace(s, ops) == FlatTrace(f, Events(s, ops))
    decreases |ops|
  {
    if ops != [] {
      StepAgrees(s, f, ops[0]);
      StepKeepsInv(s, ops[0]);
      AnswerAgrees(s, f, ops[0]);
      hide Inv, Agree, Apply, EventOf, Step, Delivered, Answer;
      RunRefines(Step(s, ops[0]), Apply(f, EventOf(s, ops[0])), ops[1..]);
      assert Events(s, ops)[1..] == Events(Step(s, ops[0]), ops[1..]);
    }
  }

  /** The same from power-on: no records, no blocks. */
  lemma RunFromEmpty(s: System, ops: seq<Op>)
    requires LegalRun(s, ops) && forall g :: 0 <= g < |s.gpus| ==> s.gpus[g].records == []
    ensures Trace(s, ops) == FlatTrace(Flat(map[], map[]), Events(s, ops))
  {
    assert Inv(s);
    assert Agree(s, Flat(map[], map[]));
    hide Inv, Agree;
    RunRefines(s, Flat(map[], map[]), ops);
  }

  // ---------------------------------------------------------------- what a caller sees

  // A table with some bytes written finds the same ranges.
  lemma CoveredKept(records: seq<Record>, next: nat, x: nat, data: seq<Byte>, y: nat, n: nat)
    requires Ordered(records, next) && Covered(records, y, n)
    ensures Covered(Write(records, x, data), y, n)
    ensures IndexOf(Write(records, x, data), y) == IndexOf(records, y)
  {
    var i := IndexOf(records, y);
    WriteKeepsRanges(records, x, data);
    WriteKeepsOrder(records, next, x, data);
    hide Write;
    var later := Write(records, x, data);
    assert SameRange(records[i], later[i]);
    IndexOfUnique(later, next, i, y);
  }

  /** After a covered write every covered range reads as before, except for the bytes it shares with
      the write, which read as the data written: nothing shows through another allocation. */
  lemma ReadAfterWrite(records: seq<Record>, next: nat, x: nat, data: seq<Byte>, y: nat, n: nat)
    requires Ordered(records, next) && data != [] && Covered(records, x, |data|) && Covered(records, y, n)
    ensures Covered(Write(records, x, data), y, n)
    ensures forall k :: 0 <= k < n ==>
      Read(Write(records, x, data), y, n)[k] == if Within(y + k, x, |data|) then data[y + k - x] else Read(records, y, n)[k]
  {
    var i := IndexOf(records, y);
    CoveredKept(records, next, x, data, y, n);
    hide Write, Covered;
    forall k | 0 <= k < n
      ensures Read(Write(records, x, data), y, n)[k] == if Within(y + k, x, |data|) then data[y + k - x] else Read(records, y, n)[k]
    {
      WritePointwise(records, next, x, data, i, y + k);
    }
  }

  /** Uploading a buffer and downloading the same range gives the buffer back. */
  lemma DownloadAfterUpload(g: Gpu, next: nat, x: nat, data: seq<Byte>, buffer: seq<Byte>)
    requires Ordered(g.records, next) && data != [] && Covered(g.records, x, |data|) && |buffer| == |data|
    ensures CopyToHost(CopyToDevice(g, x, data), buffer, x) == data
  {
    ReadAfterWrite(g.records, next, x, data, x, |data|);
    hide Write, Covered, Read;
    var after := CopyToHost(CopyToDevice(g, x, data), buffer, x);
    assert forall k :: 0 <= k < |data| ==> after[k] == data[k];
  }

  /** A copy on the device leaves at the destination what the source holds, before and after. */
  lemma MoveCopies(g: Gpu, next: nat, dst: nat, src: nat, n: nat)
    requires Ordered(g.records, next) && 0 < n && (src + n <= dst || dst + n <= src)
    requires Covered(g.records, src, n) && Covered(g.records, dst, n)
    ensures var after := CopyOnDevice(g, dst, src, n).records;
            && Covered(after, dst, n) && Read(after, dst, n) == Read(g.records, src, n)
            && Covered(after, src, n) && Read(after, src, n) == Read(g.records, src, n)
  {
    var data := Read(g.records, src, n);
    ReadAfterWrite(g.records, next, dst, data, dst, n);
    ReadAfterWrite(g.records, next, dst, data, src, n);
    hide Write, Covered, Read;
    assert Read(Write(g.records, dst, data), dst, n) == data;
    assert Read(Write(g.records, dst, data), src, n) == data;
  }

  /** A new allocation reads as zero everywhere, and granting it changes no other read. */
  lemma FreshReadsZero(g: Gpu, next: nat, size: nat, kind: Kind, x: nat, n: nat)
    requires Ordered(g.records, next) && 0 < n && AllocCheck(g, size, kind) == Success
    requires size + DEVICE_PAGE - 1 < WORD
    ensures var (g', next', status) := AllocMemory(g, next, size, kind, true, true);
            && status == Success
            && (next <= x && x + n <= next + size ==> Covered(g'.records, x, n) && Read(g'.records, x, n) == Zeros(n))
            && (Covered(g.records, x, n) ==> Covered(g'.records, x, n) && Read(g'.records, x, n) == Read(g.records, x, n))
  {
    var (g', next', status) := AllocMemory(g, next, size, kind, true, true);
    GrantedPages(size);
    AllocKeepsOrder(g, next, size, kind, true, true);
    hide AlignUp, Ordered;
    var records, later := g.records, g'.records;
    if next <= x && x + n <= next + size {
      assert later[|records|].Has(x);
      IndexOfUnique(later, next', |records|, x);
    }
    if Covered(records, x, n) {
      var i := IndexOf(records, x);
      assert later[i] == records[i];
      IndexOfUnique(later, next', i, x);
    }
  }
}
