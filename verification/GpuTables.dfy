/** What the device-memory tables keep over all runs and all GPUs: address order, disjoint ranges,
    and addresses that are never given out twice. */
module GpuTables {
  import opened Words
  import opened Extents
  import opened GpuSpec

  // ---------------------------------------------------------------- one table

  // Address-sorted and disjoint, all below the next address to be given out.
  ghost predicate Ordered(records: seq<Record>, next: nat) {
    && (forall i :: 0 <= i < |records| ==> 0 < |records[i].bytes| && records[i].End() <= next)
    && (forall i, j :: 0 <= i < j < |records| ==> records[i].End() <= records[j].addr)
  }

  /** At most one record contains an address, so the first match is the right one. */
  lemma IndexOfUnique(records: seq<Record>, next: nat, i: nat, x: nat)
    requires Ordered(records, next) && i < |records| && records[i].Has(x)
    ensures IndexOf(records, x) == i
  {
    var k := IndexOf(records, x);
    assert k <= i;
  }

  lemma IndexAtUnique(records: seq<Record>, next: nat, i: nat)
    requires Ordered(records, next) && i < |records|
    ensures IndexAt(records, records[i].addr) == i
  {
    var k := IndexAt(records, records[i].addr);
    assert k <= i;
  }

  lemma RemoveKeepsOrder(records: seq<Record>, next: nat, i: nat)
    requires Ordered(records, next)
    ensures Ordered(RemoveIndex(records, i), next)
  {
  }

  lemma AppendKeepsOrder(records: seq<Record>, next: nat, r: Record)
    requires Ordered(records, next) && r.addr == next && 0 < |r.bytes|
    ensures Ordered(records + [r], r.End())
  {
  }

  // The pages granted are not empty exactly when the request does not overflow.
  lemma GrantedPages(size: nat)
    requires 0 < size < WORD
    ensures 0 < AlignUp(size, DEVICE_PAGE) <==> size + DEVICE_PAGE - 1 < WORD
    ensures size + DEVICE_PAGE - 1 < WORD ==> size <= AlignUp(size, DEVICE_PAGE) < size + DEVICE_PAGE
  {
    AlignUpCorrect(size, DEVICE_PAGE);
    if WORD <= size + DEVICE_PAGE - 1 {
      WrapSmall(size + DEVICE_PAGE - 1 - WORD);
      DropRemainder(size + DEVICE_PAGE - 1 - WORD, DEVICE_PAGE);
    }
  }

  /** A request within a page of the word size wraps to zero bytes, and the next request is given
      the same address. */
  lemma WrappedRequestRepeatsAddress(g: Gpu, next: nat, size: nat)
    requires WORD - DEVICE_PAGE < size < WORD && |g.records| < MAX_RECORDS - 1
    ensures var (g1, next1, s1) := AllocMemory(g, next, size, VideoMem, true, true);
            var (g2, next2, s2) := AllocMemory(g1, next1, PUSH_BUFFER, SystemMem, true, true);
            s1 == s2 == Success && next1 == next
            && g2.records[|g.records|].addr == g2.records[|g.records| + 1].addr
  {
    GrantedPages(size);
    hide AlignUp;
  }

  // ---------------------------------------------------------------- all tables

  predicate Apart(r: Record, q: Record) { r.End() <= q.addr || q.End() <= r.addr }

  ghost predicate Inv(s: System) {
    && (forall g :: 0 <= g < |s.gpus| ==> Ordered(s.gpus[g].records, s.next))
    && (forall g, h, i, j :: 0 <= g < h < |s.gpus| && 0 <= i < |s.gpus[g].records| && 0 <= j < |s.gpus[h].records|
          ==> Apart(s.gpus[g].records[i], s.gpus[h].records[j]))
  }

  predicate SameRange(r: Record, q: Record) { r.addr == q.addr && |r.bytes| == |q.bytes| }

  // r is a record of the table, perhaps with other bytes, or starts at or above next.
  ghost predicate From(r: Record, records: seq<Record>, next: nat) {
    next <= r.addr || exists i :: 0 <= i < |records| && SameRange(records[i], r)
  }

  ghost predicate AllFrom(later: seq<Record>, records: seq<Record>, next: nat) {
    forall j :: 0 <= j < |later| ==> From(later[j], records, next)
  }

  // One table changed within these bounds keeps the whole system in order.
  lemma UpdateKeepsInv(s: System, h: nat, g: Gpu, next: nat)
    requires Inv(s) && h < |s.gpus| && s.next <= next
    requires Ordered(g.records, next) && AllFrom(g.records, s.gpus[h].records, s.next)
    ensures Inv(System(s.gpus[h := g], next))
  {
    forall k, i, j | 0 <= k < |s.gpus| && k != h && 0 <= i < |s.gpus[k].records| && 0 <= j < |g.records|
      ensures Apart(s.gpus[k].records[i], g.records[j]) && Apart(g.records[j], s.gpus[k].records[i])
    {
      assert s.gpus[k].records[i].End() <= s.next;
      assert From(g.records[j], s.gpus[h].records, s.next);
      if g.records[j].addr < s.next {
        var m :| 0 <= m < |s.gpus[h].records| && SameRange(s.gpus[h].records[m], g.records[j]);
        if k < h {
          assert Apart(s.gpus[k].records[i], s.gpus[h].records[m]);
        } else {
          assert Apart(s.gpus[h].records[m], s.gpus[k].records[i]);
        }
      }
    }
  }

  // ---------------------------------------------------------------- what each call does to its table

  lemma RemoveIsFrom(records: seq<Record>, next: nat, i: nat)
    ensures AllFrom(RemoveIndex(records, i), records, next)
  {
    var later := RemoveIndex(records, i);
    forall j | 0 <= j < |later| ensures From(later[j], records, next) {
      var k := if j < i then j else j + 1;
      assert SameRange(records[k], later[j]);
    }
  }

  lemma WriteKeepsRanges(records: seq<Record>, x: nat, data: seq<Byte>)
    ensures var later := Write(records, x, data);
            |later| == |records|
            && forall j :: 0 <= j < |later| ==> SameRange(records[j], later[j]) && later[j].kind == records[j].kind
  {
    hide IndexOf;
  }

  lemma WriteKeepsOrder(records: seq<Record>, next: nat, x: nat, data: seq<Byte>)
    requires Ordered(records, next)
    ensures Ordered(Write(records, x, data), next) && AllFrom(Write(records, x, data), records, next)
  {
    WriteKeepsRanges(records, x, data);
    hide Write;
  }

  lemma AllocKeepsOrder(g: Gpu, next: nat, size: nat, kind: Kind, storeOk: bool, recordOk: bool)
    requires Ordered(g.records, next) && size + DEVICE_PAGE - 1 < WORD
    ensures var (g', next', _) := AllocMemory(g, next, size, kind, storeOk, recordOk);
            next <= next' && Ordered(g'.records, next') && AllFrom(g'.records, g.records, next)
  {
    var (g', next', status) := AllocMemory(g, next, size, kind, storeOk, recordOk);
    if size != 0 {
      GrantedPages(size);
    }
    hide AlignUp;
    forall j | 0 <= j < |g'.records| ensures From(g'.records[j], g.records, next) {
      assert j < |g.records| ==> SameRange(g.records[j], g'.records[j]);
    }
  }

  lemma StepKeepsOrder(g: Gpu, next: nat, op: Op)
    requires Ordered(g.records, next) && Legal(System([g], next), op.(gpu := 0))
    ensures var (g', next') := StepGpu(g, next, op);
            next <= next' && Ordered(g'.records, next') && AllFrom(g'.records, g.records, next)
  {
    hide AllocMemory, Write, RemoveIndex, IndexAt, Covered;
    match op
    case Alloc(_, size, kind, storeOk, recordOk) =>
      AllocKeepsOrder(g, next, size, kind, storeOk, recordOk);
    case Create(_, _, storeOk, recordOk) =>
      AllocKeepsOrder(g, next, PUSH_BUFFER, SystemMem, storeOk, recordOk);
      Unchanged(g.records, next);
    case Free(_, addr, _, _) =>
      RemoveKeepsOrder(g.records, next, IndexAt(g.records, addr));
      RemoveIsFrom(g.records, next, IndexAt(g.records, addr));
    case Destroy(_, k) =>
      RemoveKeepsOrder(g.records, next, IndexAt(g.records, g.channels[k].base));
      RemoveIsFrom(g.records, next, IndexAt(g.records, g.channels[k].base));
    case ToDevice(_, dst, data) =>
      Unchanged(g.records, next);
      WriteKeepsOrder(g.records, next, dst, data);
    case OnDevice(_, dst, src, n) =>
      Unchanged(g.records, next);
      if Covered(g.records, src, n) {
        WriteKeepsOrder(g.records, next, dst, Read(g.records, src, n));
      }
    case ToHost(_, _, _) =>
      Unchanged(g.records, next);
  }

  lemma Unchanged(records: seq<Record>, next: nat)
    ensures AllFrom(records, records, next)
  {
    assert forall j :: 0 <= j < |records| ==> SameRange(records[j], records[j]);
  }

  lemma StepKeepsInv(s: System, op: Op)
    requires Inv(s) && Legal(s, op)
    ensures Inv(Step(s, op)) && s.next <= Step(s, op).next
  {
    StepKeepsOrder(s.gpus[op.gpu], s.next, op);
    hide StepGpu;
    var (g, next) := StepGpu(s.gpus[op.gpu], s.next, op);
    UpdateKeepsInv(s, op.gpu, g, next);
  }

  /** Over every run on any number of GPUs the tables stay address-sorted, and any two records of
      the whole system are disjoint. */
  lemma {:induction false} RunKeepsInv(s: System, ops: seq<Op>)
    requires Inv(s) && LegalRun(s, ops)
    ensures Inv(Run(s, ops)) && s.next <= Run(s, ops).next
    decreases |ops|
  {
    if ops != [] {
      StepKeepsInv(s, ops[0]);
      RunKeepsInv(Step(s, ops[0]), ops[1..]);
    }
  }

  // ---------------------------------------------------------------- addresses are fresh

  // The range one call grants: none, or the pages appended to its table.
  function Grant(s: System, op: Op): seq<Extent>
    requires Legal(s, op)
  {
    var before := s.gpus[op.gpu].records;
    var after := Step(s, op).gpus[op.gpu].records;
    if |after| == |before| + 1 then [Extent(s.next, |after[|before|].bytes|)] else []
  }

  // All ranges granted over a run, in order.
  function Grants(s: System, ops: seq<Op>): seq<Extent>
    requires LegalRun(s, ops)
    decreases |ops|
  {
    if ops == [] then [] else Grant(s, ops[0]) + Grants(Step(s, ops[0]), ops[1..])
  }

  // Consecutive ranges between lo and hi that do not overlap.
  ghost predicate Ascending(log: seq<Extent>, lo: nat, hi: nat) {
    && (forall i :: 0 <= i < |log| ==> lo <= log[i].addr && 0 < log[i].size && log[i].End() <= hi)
    && (forall i, j :: 0 <= i < j < |log| ==> log[i].End() <= log[j].addr)
  }

  predicate Logged(r: Record, log: seq<Extent>) {
    Extent(r.addr, |r.bytes|) in log
  }

  // Every record of the system has its range in the log.
  ghost predicate AllLogged(s: System, log: seq<Extent>) {
    forall g, i :: 0 <= g < |s.gpus| && 0 <= i < |s.gpus[g].records| ==> Logged(s.gpus[g].records[i], log)
  }

  lemma Regroup(a: seq<Extent>, b: seq<Extent>, c: seq<Extent>)
    ensures a + b + c == a + (b + c)
  {
  }

  lemma AscendingJoin(a: seq<Extent>, b: seq<Extent>, lo: nat, mid: nat, hi: nat)
    requires Ascending(a, lo, mid) && Ascending(b, mid, hi) && lo <= mid <= hi
    ensures Ascending(a + b, lo, hi)
  {
  }

  // A table that only grew at the counter, or did not grow: each record is the new one or an old one.
  lemma GrownOrOld(before: seq<Record>, after: seq<Record>, next: nat, r: Record)
    requires r in after && From(r, before, next)
    requires |after| == |before| + 1 ==> after[..|before|] == before
    requires |after| != |before| + 1 ==> r.addr < next
    ensures (|after| == |before| + 1 && r == after[|before|]) || exists i :: 0 <= i < |before| && SameRange(before[i], r)
  {
    if |after| == |before| + 1 {
      var i :| 0 <= i < |after| && after[i] == r;
      if i < |before| {
        assert before[i] == after[..|before|][i] && SameRange(before[i], r);
      }
    }
  }

  lemma LastAscends(after: seq<Record>, next: nat, next': nat)
    requires Ordered(after, next') && after != [] && after[|after| - 1].addr == next
    ensures Ascending([Extent(next, |after[|after| - 1].bytes|)], next, next')
  {
  }

  // What the grant of a call is, in terms of its table before and after.
  lemma GrantIs(s: System, op: Op)
    requires Legal(s, op)
    ensures var before, after := s.gpus[op.gpu].records, StepGpu(s.gpus[op.gpu], s.next, op).0.records;
            && Grant(s, op) == (if |after| == |before| + 1 then [Extent(s.next, |after[|before|].bytes|)] else [])
            && Step(s, op).next == StepGpu(s.gpus[op.gpu], s.next, op).1
  {
    hide StepGpu;
  }

  lemma TableOrdered(s: System, h: nat)
    requires Inv(s) && h < |s.gpus|
    ensures Ordered(s.gpus[h].records, s.next)
  {
  }

  // A call appends at most one record, at the counter.
  lemma GrantAscends(s: System, op: Op)
    requires Inv(s) && Legal(s, op)
    ensures Ascending(Grant(s, op), s.next, Step(s, op).next)
  {
    var before, after := s.gpus[op.gpu].records, StepGpu(s.gpus[op.gpu], s.next, op).0.records;
    TableOrdered(s, op.gpu);
    hide StepGpu, Inv, Grant, Ordered;
    StepKeepsOrder(s.gpus[op.gpu], s.next, op);
    GrownAtCounter(s.gpus[op.gpu], s.next, op);
    GrantIs(s, op);
    if |after| == |before| + 1 {
      LastAscends(after, s.next, Step(s, op).next);
    }
  }

  // Every record of the table afterwards is the one granted or has an old range.
  lemma StepGrants(s: System, op: Op)
    requires Inv(s) && Legal(s, op)
    ensures forall r <- Step(s, op).gpus[op.gpu].records ::
              Logged(r, Grant(s, op)) || exists i :: 0 <= i < |s.gpus[op.gpu].records| && SameRange(s.gpus[op.gpu].records[i], r)
  {
    var before := s.gpus[op.gpu].records;
    TableOrdered(s, op.gpu);
    hide StepGpu, Inv, Ordered;
    StepKeepsOrder(s.gpus[op.gpu], s.next, op);
    GrownAtCounter(s.gpus[op.gpu], s.next, op);
    var after := Step(s, op).gpus[op.gpu].records;
    forall r <- after
      ensures Logged(r, Grant(s, op)) || exists i :: 0 <= i < |before| && SameRange(before[i], r)
    {
      assert From(r, before, s.next) by {
        hide Grant;
      }
      GrownOrOld(before, after, s.next, r);
      hide From;
    }
  }

  // Whatever starts at or above the counter was appended by this call, and then it is the last record.
  lemma GrownAtCounter(g: Gpu, next: nat, op: Op)
    requires Ordered(g.records, next) && Legal(System([g], next), op.(gpu := 0))
    ensures var (g', next') := StepGpu(g, next, op);
            && (|g'.records| == |g.records| + 1 ==> g'.records[..|g.records|] == g.records && g'.records[|g.records|].addr == next)
            && (|g'.records| != |g.records| + 1 ==> forall r <- g'.records :: r.addr < next)
  {
    var (g', next') := StepGpu(g, next, op);
    StepKeepsOrder(g, next, op);
    match op
    case Alloc(_, _, _, _, _) => hide AlignUp;
    case Create(_, _, _, _) => hide AlignUp;
    case Free(_, addr, _, _) => ShrinkOnly(g.records, next, IndexAt(g.records, addr));
    case Destroy(_, k) => ShrinkOnly(g.records, next, IndexAt(g.records, g.channels[k].base));
    case ToDevice(_, dst, data) => WriteOnly(g.records, next, dst, data);
    case OnDevice(_, dst, src, n) =>
      if Covered(g.records, src, n) {
        WriteOnly(g.records, next, dst, Read(g.records, src, n));
      }
    case ToHost(_, _, _) =>
  }

  lemma ShrinkOnly(records: seq<Record>, next: nat, i: nat)
    requires Ordered(records, next)
    ensures |RemoveIndex(records, i)| <= |records|
    ensures forall r <- RemoveIndex(records, i) :: r.addr < next
  {
  }

  lemma WriteOnly(records: seq<Record>, next: nat, x: nat, data: seq<Byte>)
    requires Ordered(records, next)
    ensures |Write(records, x, data)| == |records|
    ensures forall r <- Write(records, x, data) :: r.addr < next
  {
    WriteKeepsRanges(records, x, data);
    hide Write;
  }

  // A record that kept its range stays logged, whatever is added to the log.
  lemma StaysLogged(records: seq<Record>, r: Record, log: seq<Extent>, more: seq<Extent>)
    requires forall q <- records :: Logged(q, log)
    requires Logged(r, more) || exists i :: 0 <= i < |records| && SameRange(records[i], r)
    ensures Logged(r, log + more)
  {
    if !Logged(r, more) {
      var i :| 0 <= i < |records| && SameRange(records[i], r);
      assert Logged(records[i], log);
    }
  }

  lemma StepLogged(s: System, op: Op, log: seq<Extent>)
    requires Inv(s) && Legal(s, op) && AllLogged(s, log)
    ensures AllLogged(Step(s, op), log + Grant(s, op))
  {
    hide Inv, StepGpu, Grant, Logged;
    StepGrants(s, op);
    var t := Step(s, op);
    forall g, i | 0 <= g < |t.gpus| && 0 <= i < |t.gpus[g].records|
      ensures Logged(t.gpus[g].records[i], log + Grant(s, op))
    {
      var r := t.gpus[g].records[i];
      if g != op.gpu {
        assert SameRange(s.gpus[g].records[i], r);
      }
      StaysLogged(s.gpus[g].records, r, log, Grant(s, op));
    }
  }

  /** No address range is ever granted twice: over any run on any number of GPUs the granted ranges
      ascend without overlap from the counter at the start, whatever was freed in between, and every
      record that is live at the end lies in one of them or was there before. */
  lemma {:induction false} AddressesNeverReused(s: System, ops: seq<Op>, log: seq<Extent>)
    requires Inv(s) && LegalRun(s, ops) && AllLogged(s, log)
    ensures s.next <= Run(s, ops).next
    ensures Ascending(Grants(s, ops), s.next, Run(s, ops).next)
    ensures AllLogged(Run(s, ops), log + Grants(s, ops))
    decreases |ops|
  {
    if ops == [] {
      assert log + [] == log;
    } else {
      var t := Step(s, ops[0]);
      StepKeepsInv(s, ops[0]);
      GrantAscends(s, ops[0]);
      StepLogged(s, ops[0], log);
      hide Step, Grant, Inv, AllLogged, Ascending;
      AddressesNeverReused(t, ops[1..], log + Grant(s, ops[0]));
      AscendingJoin(Grant(s, ops[0]), Grants(t, ops[1..]), s.next, t.next, Run(s, ops).next);
      Regroup(log, Grant(s, ops[0]), Grants(t, ops[1..]));
    }
  }
}
