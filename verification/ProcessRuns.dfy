/** Runs of process_malloc and process_free by any number of processes on one heap. */
module ProcessRuns {
  import opened Bits
  import opened Bytes
  import opened HeapTable
  import opened HeapRuns
  import opened KernelHeap
  import opened AddressSpace
  import opened Paging
  import opened Process

  datatype Proc = Proc(sp: Space, slots: seq<Allocation>)

  datatype System = System(m: Memory, procs: seq<Proc>)

  datatype Call =
    | Malloc(i: nat, size: Word, ptr: Word, slot: int, touched: set<nat>)
    | Free(i: nat, ptr: Word, slot: int)

  ghost predicate ProcOk(m: Memory, p: Proc) {
    && Wired(m.saddr, m.pool, p.sp) && Owned(m.live, p.sp)
    && SlotsOk(m.saddr, m.live, Flat(m.saddr, m.pool, p.sp), p.sp, p.slots)
  }

  /** The pointers p records are none of q's, and none of their runs is a block of q's
      page tables. */
  ghost predicate KeepsOff(saddr: Word, p: seq<Allocation>, q: Proc) {
    forall i | 0 <= i < |p| && p[i].ptr != 0 ::
      && (p[i].ptr - saddr) / PAGE !in Blocks(q.sp)
      && forall j | 0 <= j < |q.slots| :: p[i].ptr != q.slots[j].ptr
  }

  ghost predicate Apart(saddr: Word, p: Proc, q: Proc) {
    Blocks(p.sp) !! Blocks(q.sp) && KeepsOff(saddr, p.slots, q)
  }

  ghost predicate Inv(s: System) {
    && s.m.saddr % PAGE == 0 && 0 < s.m.saddr && s.m.saddr + PAGE * s.m.total < TWO32
    && Disjoint(s.m.live, s.m.total)
    && (forall i | 0 <= i < |s.procs| :: ProcOk(s.m, s.procs[i]))
    && (forall i, j | 0 <= i < |s.procs| && 0 <= j < |s.procs| && i != j :: Apart(s.m.saddr, s.procs[i], s.procs[j]))
  }

  /** One call, with the effect its contract promises; the other processes only wait. */
  ghost predicate Next(s: System, c: Call, s': System) {
    && c.i < |s.procs| == |s'.procs|
    && (forall j | 0 <= j < |s.procs| && j != c.i :: s'.procs[j] == s.procs[j])
    && s'.procs[c.i].sp == s.procs[c.i].sp
    && var p, p' := s.procs[c.i], s'.procs[c.i];
       match c
       case Malloc(_, size, ptr, slot, touched) =>
         1 <= size <= TWO32 - PAGE
         && MallocDone(s.m, p.sp, p.slots, size, ptr, slot, touched, s'.m, p'.slots)
       case Free(_, ptr, slot) =>
         ptr != 0 && FreeDone(s.m, p.sp, p.slots, ptr, slot, s'.m, p'.slots)
  }

  /** The block that a call adds to or takes from the live runs. */
  function RunOf(s: System, c: Call): int {
    (c.ptr - s.m.saddr) / PAGE
  }

  lemma CallerMalloc(s: System, c: Call, s': System)
    requires Inv(s) && Next(s, c, s') && c.Malloc?
    ensures ProcOk(s'.m, s'.procs[c.i])
  {
    hide Wired, Flat, SlotsOk, MapToFlat, SameOutside, LoadByte, Owned, Disjoint, Apart, BlocksFor;
    var p := s.procs[c.i];
    assert ProcOk(s.m, p);
    if c.ptr != 0 {
      OwnedGrows(s.m.live, p.sp, RunOf(s, c), BlocksFor(c.size));
      var f := Flat(s.m.saddr, s.m.pool, p.sp);
      SlotCount(s.m.saddr, s.m.live, f, p.sp, p.slots);
      MallocKeepsSlots(s.m.saddr, s.m.total, s.m.live, f, p.sp, p.slots, c.slot, c.ptr, c.size);
    }
  }

  lemma CallerFree(s: System, c: Call, s': System)
    requires Inv(s) && Next(s, c, s') && c.Free?
    ensures ProcOk(s'.m, s'.procs[c.i])
  {
    hide Wired, Flat, SlotsOk, MapToFlat, SameOutside;
    var p := s.procs[c.i];
    assert ProcOk(s.m, p);
    var f := Flat(s.m.saddr, s.m.pool, p.sp);
    FreeKeepsSlots(s.m.saddr, s.m.total, s.m.live, f, p.sp, p.slots, c.slot);
    RecordedSlot(s.m.saddr, s.m.live, f, p.sp, p.slots, c.slot);
    OwnedKept(s.m.live, p.sp, RunOf(s, c));
  }

  lemma OtherKept(s: System, c: Call, s': System, j: nat)
    requires Inv(s) && Next(s, c, s') && j < |s.procs| && j != c.i
    ensures ProcOk(s'.m, s'.procs[j])
  {
    hide Wired, Flat, SlotsOk, MapToFlat, SameOutside, Disjoint, LoadByte;
    var p, q, b := s.procs[c.i], s.procs[j], RunOf(s, c);
    assert ProcOk(s.m, p) && ProcOk(s.m, q) && Apart(s.m.saddr, p, q);
    if c.Malloc? {
      OtherProcessKept(s.m.saddr, s.m.live, s.m.pool, p.sp, c.touched, s'.m.live, s'.m.pool,
                       if c.ptr == 0 then 0 else b, BlocksFor(c.size), q.sp, q.slots);
    } else {
      var f := Flat(s.m.saddr, s.m.pool, p.sp);
      RecordedSlot(s.m.saddr, s.m.live, f, p.sp, p.slots, c.slot);
      assert {} + Elements(p.sp.tables) == Elements(p.sp.tables);
      OtherProcessKept(s.m.saddr, s.m.live, s.m.pool, p.sp, {}, s'.m.live, s'.m.pool, b, 0, q.sp, q.slots);
    }
  }
  /** A granted run was not live, so no slot of any process records it and no space owns it. */
  lemma GrantIsNew(s: System, c: Call, s': System, j: nat)
    requires Inv(s) && Next(s, c, s') && c.Malloc? && c.ptr != 0 && j < |s.procs|
    ensures RunOf(s, c) !in Blocks(s.procs[j].sp)
    ensures forall k | 0 <= k < |s.procs[j].slots| :: s.procs[j].slots[k].ptr != c.ptr
  {
    hide Wired, Flat, SelfMapped, MapToFlat, SameOutside, Disjoint, LoadByte, Apart;
    var q := s.procs[j];
    assert ProcOk(s.m, q);
    forall k | 0 <= k < |q.slots| && q.slots[k].ptr != 0
      ensures q.slots[k].ptr != c.ptr
    {
      assert SlotOk(s.m.saddr, s.m.live, Flat(s.m.saddr, s.m.pool, q.sp), q.sp, q.slots[k]);
    }
  }

  lemma StaysApart(s: System, c: Call, s': System, i: nat, j: nat)
    requires Inv(s) && Next(s, c, s') && i < |s.procs| && j < |s.procs| && i != j
    ensures Apart(s'.m.saddr, s'.procs[i], s'.procs[j])
  {
    hide ProcOk, Wired, Flat, MapToFlat, SameOutside, Disjoint, LoadByte, Blocks;
    assert Apart(s.m.saddr, s.procs[i], s.procs[j]);
    if c.Malloc? && c.ptr != 0 {
      GrantIsNew(s, c, s', i);
      GrantIsNew(s, c, s', j);
    }
  }

  lemma StepKeepsInv(s: System, c: Call, s': System)
    requires Inv(s) && Next(s, c, s')
    ensures Inv(s')
  {
    hide ProcOk, Apart;
    forall j | 0 <= j < |s.procs|
      ensures ProcOk(s'.m, s'.procs[j])
    {
      if j != c.i {
        OtherKept(s, c, s', j);
      } else if c.Malloc? {
        CallerMalloc(s, c, s');
      } else {
        CallerFree(s, c, s');
      }
    }
    forall i, j | 0 <= i < |s.procs| && 0 <= j < |s.procs| && i != j
      ensures Apart(s'.m.saddr, s'.procs[i], s'.procs[j])
    {
      StaysApart(s, c, s', i, j);
    }
  }

  ghost predicate Run(ss: seq<System>, cs: seq<Call>) {
    && |ss| == |cs| + 1 && Inv(ss[0])
    && forall k | 0 <= k < |cs| :: Next(ss[k], cs[k], ss[k + 1])
  }

  /** In every run of any number of processes, every used slot of every process names a live
      run that fits its size and whose pages map to themselves for the user, and no two
      slots of the same or of different processes share a run. */
  lemma {:induction false} EveryProcessRun(ss: seq<System>, cs: seq<Call>, k: nat)
    requires Run(ss, cs) && k < |ss|
    ensures Inv(ss[k])
  {
    hide Inv, Next;
    if k > 0 {
      EveryProcessRun(ss, cs, k - 1);
      StepKeepsInv(ss[k - 1], cs[k - 1], ss[k]);
    }
  }

  /** What that says of one used slot of one process, in every reachable state. */
  lemma EverySlot(ss: seq<System>, cs: seq<Call>, k: nat, i: nat, j: nat)
    requires Run(ss, cs) && k < |ss| && i < |ss[k].procs|
    requires j < |ss[k].procs[i].slots| && ss[k].procs[i].slots[j].ptr != 0
    ensures var m, p, a := ss[k].m, ss[k].procs[i], ss[k].procs[i].slots[j];
      var b := (a.ptr - m.saddr) / PAGE;
      && Wired(m.saddr, m.pool, p.sp)
      && b in m.live && m.live[b] == BlocksFor(a.size) && a.ptr == m.saddr + PAGE * b && a.size >= 1
      && a.ptr / PAGE + m.live[b] <= PAGES
      && forall v: nat | a.ptr / PAGE <= v < a.ptr / PAGE + m.live[b] ::
           var e := Flat(m.saddr, m.pool, p.sp)[v];
           Frame(e) == PAGE * v && Bit(e, 0) && Bit(e, 1) && Bit(e, 2)
  {
    hide Wired, Flat, Bit, SelfMapped, Disjoint;
    EveryProcessRun(ss, cs, k);
    var m, p := ss[k].m, ss[k].procs[i];
    assert ProcOk(m, p);
    SlotPages(m.saddr, m.live, Flat(m.saddr, m.pool, p.sp), p.sp, p.slots[j]);
  }
}
