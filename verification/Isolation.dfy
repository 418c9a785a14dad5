/** Runs of the memory layer: any number of address spaces created, mapped and freed
    between other heap allocations. Each space sees its own mappings and no others. */
module Isolation {
  import opened Bits
  import opened HeapTable
  import opened HeapRuns
  import opened KernelHeap
  import opened AddressSpace
  import opened Paging

  /** The kernel's pool and table size are fixed; the rest changes. */
  datatype Kernel = Kernel(saddr: Word, total: nat, live: Runs, mem: seq<Word>, spaces: set<Space>)

  datatype Op =
    | Alloc(start: nat, n: nat)
    | Release(start: nat)
    | Write(start: nat)
    | New(flags: Word, sp: Space)
    | MapIn(sp: Space, virt: Word, phys: Word, physEnd: Word, flags: Word)
    | Drop(sp: Space)

  /** A live run that belongs to no address space. */
  ghost predicate Private(k: Kernel, s: nat) {
    s in k.live && forall sp | sp in k.spaces :: s !in Blocks(sp)
  }

  /** One call: an allocation, a free or a write by the holder of a run, or one of the
      paging routines, with the effect its contract promises. */
  ghost predicate Next(k: Kernel, op: Op, k': Kernel) {
    && k'.saddr == k.saddr && k'.total == k.total
    && match op
       case Alloc(s, n) =>
         && n >= 1 && s !in k.live && k'.live == k.live[s := n] && Disjoint(k'.live, k.total)
         && SameOutside(k.mem, k'.mem, Range(s, n)) && k'.spaces == k.spaces
       case Release(s) =>
         && Private(k, s) && k' == k.(live := k.live - {s})
       case Write(s) =>
         && Private(k, s) && k' == k.(mem := k'.mem)
         && SameOutside(k.mem, k'.mem, Range(s, k.live[s]))
       case New(flags, sp) =>
         && NewSpace(k.saddr, k.live, k.mem, flags, sp, k'.live, k'.mem)
         && Disjoint(k'.live, k.total) && k'.spaces == k.spaces + {sp}
       case MapIn(sp, virt, phys, physEnd, flags) =>
         && sp in k.spaces && k' == k.(mem := k'.mem)
         && SameOutside(k.mem, k'.mem, Elements(sp.tables))
         && Wired(k.saddr, k.mem, sp) && Wired(k.saddr, k'.mem, sp)
         && Flat(k.saddr, k'.mem, sp) == MapToFlat(Flat(k.saddr, k.mem, sp), virt, phys, physEnd, flags)
       case Drop(sp) =>
         && sp in k.spaces
         && k' == k.(live := k.live - Blocks(sp), spaces := k.spaces - {sp})
  }

  /** Every space is wired through blocks it owns, and no two spaces share a block. */
  ghost predicate Inv(k: Kernel) {
    && Disjoint(k.live, k.total)
    && (forall sp | sp in k.spaces :: Wired(k.saddr, k.mem, sp) && Owned(k.live, sp))
    && (forall a, b | a in k.spaces && b in k.spaces && a != b :: Blocks(a) !! Blocks(b))
  }

  /** The blocks whose words a call may change. */
  function Touched(k: Kernel, op: Op): set<nat> {
    match op
    case Alloc(s, n) => Range(s, n)
    case Release(_) => {}
    case Write(s) => if s in k.live then Range(s, k.live[s]) else {}
    case New(_, sp) => Blocks(sp)
    case MapIn(sp, _, _, _, _) => Elements(sp.tables)
    case Drop(_) => {}
  }

  /** What a call does to the flat map of a space that outlives it. */
  ghost function Effect(f: PageMap, op: Op, sp: Space): PageMap {
    if op.MapIn? && op.sp == sp then MapToFlat(f, op.virt, op.phys, op.physEnd, op.flags) else f
  }

  lemma OneBlockRunsApart(live: Runs, total: nat, sp: Space, s: nat)
    requires Disjoint(live, total) && Owned(live, sp) && s in live && s !in Blocks(sp)
    ensures Range(s, live[s]) !! Blocks(sp)
  {
  }

  lemma TouchedIsForeign(k: Kernel, op: Op, k': Kernel, sp: Space)
    requires Inv(k) && Next(k, op, k') && sp in k.spaces && !(op.MapIn? && op.sp == sp)
    ensures SameOutside(k.mem, k'.mem, Touched(k, op)) && Touched(k, op) !! Blocks(sp)
  {
    hide Wired, Flat, MapToFlat;
    match op
    case Alloc(s, n) =>
      assert Owned(k'.live, sp) by {
        assert s !in Blocks(sp);
      }
      OneBlockRunsApart(k'.live, k.total, sp, s);
    case Write(s) =>
      OneBlockRunsApart(k.live, k.total, sp, s);
    case New(_, other) =>
      assert forall b | b in Blocks(sp) :: b in k.live.Keys;
    case MapIn(other, _, _, _, _) =>
      assert Elements(other.tables) <= Blocks(other);
    case Release(_) =>
    case Drop(_) =>
  }

  /** A call changes the flat map of a space only if it maps in that very space. */
  lemma StepIsolates(k: Kernel, op: Op, k': Kernel, sp: Space)
    requires Inv(k) && Next(k, op, k') && sp in k.spaces
    ensures Wired(k.saddr, k'.mem, sp)
    ensures Flat(k.saddr, k'.mem, sp) == Effect(Flat(k.saddr, k.mem, sp), op, sp)
  {
    hide Wired, Flat, MapToFlat, Disjoint;
    if op.MapIn? && op.sp == sp {
    } else {
      TouchedIsForeign(k, op, k', sp);
      SpaceFrame(k.saddr, k.mem, k'.mem, sp, Touched(k, op));
    }
  }

  /** A surviving space keeps its blocks, and they stay apart from a new space's. */
  lemma StepKeepsOwned(k: Kernel, op: Op, k': Kernel, sp: Space)
    requires Inv(k) && Next(k, op, k') && sp in k.spaces && sp in k'.spaces
    ensures Owned(k'.live, sp)
    ensures op.New? ==> Blocks(sp) !! Blocks(op.sp)
  {
    hide Wired, Flat, MapToFlat, SameOutside, Disjoint;
    assert forall b | b in Blocks(sp) :: b in k.live.Keys;
  }

  lemma StepKeepsDisjoint(k: Kernel, op: Op, k': Kernel)
    requires Inv(k) && Next(k, op, k')
    ensures Disjoint(k'.live, k'.total)
    ensures op.New? ==> Wired(k'.saddr, k'.mem, op.sp) && Owned(k'.live, op.sp)
    ensures forall sp | sp in k'.spaces :: sp in k.spaces || (op.New? && sp == op.sp)
  {
    hide Wired, Flat, MapToFlat, SameOutside;
  }

  lemma StepKeepsInv(k: Kernel, op: Op, k': Kernel)
    requires Inv(k) && Next(k, op, k')
    ensures Inv(k')
  {
    hide Wired, Flat, Next, Owned, Disjoint, Effect, Blocks;
    StepKeepsDisjoint(k, op, k');
    assert k'.saddr == k.saddr by { StepIsFixed(k, op, k'); }
    forall sp | sp in k'.spaces && sp in k.spaces
      ensures Wired(k'.saddr, k'.mem, sp) && Owned(k'.live, sp)
      ensures op.New? ==> Blocks(sp) !! Blocks(op.sp)
    {
      StepIsolates(k, op, k', sp);
      StepKeepsOwned(k, op, k', sp);
    }
  }

  lemma StepIsFixed(k: Kernel, op: Op, k': Kernel)
    requires Next(k, op, k')
    ensures k'.saddr == k.saddr && k'.total == k.total
  {
  }

  // ---- Runs ----

  ghost predicate Run(ks: seq<Kernel>, ops: seq<Op>) {
    && |ks| == |ops| + 1
    && Inv(ks[0])
    && forall i | 0 <= i < |ops| :: Next(ks[i], ops[i], ks[i + 1])
  }

  /** The mappings of one space, replayed from a flat map. */
  ghost function Replay(f: PageMap, ops: seq<Op>, sp: Space): PageMap {
    if ops == [] then f
    else Effect(Replay(f, ops[..|ops| - 1], sp), ops[|ops| - 1], sp)
  }

  lemma {:induction false} RunKeepsInv(ks: seq<Kernel>, ops: seq<Op>, j: nat)
    requires Run(ks, ops) && j < |ks|
    ensures Inv(ks[j]) && ks[j].saddr == ks[0].saddr && ks[j].total == ks[0].total
  {
    hide Inv, Next;
    if j > 0 {
      RunKeepsInv(ks, ops, j - 1);
      StepIsFixed(ks[j - 1], ops[j - 1], ks[j]);
      StepKeepsInv(ks[j - 1], ops[j - 1], ks[j]);
    }
  }

  /** Isolation over whole runs: from any state on, as long as a space lives, its flat map
      is what its own map calls make of it, whatever is created, mapped, written,
      allocated or freed in between. */
  lemma {:induction false} RunIsolates(ks: seq<Kernel>, ops: seq<Op>, i: nat, j: nat, sp: Space)
    requires Run(ks, ops) && i <= j < |ks|
    requires forall m | i <= m <= j :: sp in ks[m].spaces
    ensures Inv(ks[i]) && Inv(ks[j]) && ks[i].saddr == ks[j].saddr
    ensures Flat(ks[j].saddr, ks[j].mem, sp)
            == Replay(Flat(ks[i].saddr, ks[i].mem, sp), ops[i..j], sp)
    decreases j - i
  {
    hide Wired, Flat, Next, Effect, Disjoint, Owned;
    RunKeepsInv(ks, ops, i);
    RunKeepsInv(ks, ops, j);
    if i < j {
      RunIsolates(ks, ops, i, j - 1, sp);
      StepIsolates(ks[j - 1], ops[j - 1], ks[j], sp);
      assert ops[i..j][..j - i - 1] == ops[i..j - 1];
    }
  }

  /** A space created by step i starts as the identity and is shaped by its own calls only. */
  lemma CreatedSpaceIsolated(ks: seq<Kernel>, ops: seq<Op>, i: nat, j: nat)
    requires Run(ks, ops) && i < j < |ks| && ops[i].New?
    requires forall m | i < m <= j :: ops[i].sp in ks[m].spaces
    ensures var sp := ops[i].sp;
      Inv(ks[j]) && Flat(ks[j].saddr, ks[j].mem, sp)
                    == Replay(Identity(ops[i].flags), ops[i + 1..j], sp)
  {
    hide Flat, Wired, Inv, Replay, DirFilled, SameOutside, Disjoint;
    assert Next(ks[i], ops[i], ks[i + 1]);
    RunIsolates(ks, ops, i + 1, j, ops[i].sp);
  }

  // ---- Creating, mapping and freeing restores the heap ----

  lemma {:induction false} MapsKeepRuns(ks: seq<Kernel>, ops: seq<Op>, j: nat)
    requires Run(ks, ops) && 1 <= j < |ks|
    requires forall m | 1 <= m < j :: ops[m].MapIn?
    ensures ks[j].live == ks[1].live
  {
    if j > 1 {
      MapsKeepRuns(ks, ops, j - 1);
      assert Next(ks[j - 1], ops[j - 1], ks[j]);
    }
  }

  /** New, any sequence of mappings, then free: the entry table is restored byte for byte. */
  lemma NewMapFreeRestores(ks: seq<Kernel>, ops: seq<Op>, t: Table, t': Table)
    requires Run(ks, ops) && |ops| >= 2
    requires ops[0].New? && ops[|ops| - 1] == Drop(ops[0].sp)
    requires forall m | 1 <= m < |ops| - 1 :: ops[m].MapIn?
    requires |t| == |t'| && Represents(t, ks[0].live) && Represents(t', ks[|ops|].live)
    ensures t == t'
  {
    var n, sp := |ops| - 1, ops[0].sp;
    assert Next(ks[0], ops[0], ks[1]) && Next(ks[n], ops[n], ks[n + 1]);
    MapsKeepRuns(ks, ops, n);
    assert ks[0].live + Singles(Blocks(sp)) - Blocks(sp) == ks[0].live;
    EncodingUnique(t, t', ks[0].live);
  }
  // ---- The routines make such steps ----

  ghost function Snapshot(h: Heap, spaces: set<Space>): Kernel
    reads h, h.pool
  {
    Kernel(h.saddr, h.entries.Length, h.live, h.pool[..], spaces)
  }

  method Allocate(h: Heap, size: Word, ghost spaces: set<Space>) returns (ptr: Word)
    requires h.Valid() && Inv(Snapshot(h, spaces))
    requires 1 <= size <= TWO32 - PAGE && MallocSafe(h.entries[..], BlocksFor(size))
    modifies h`live, h.entries, h.pool
    ensures h.Valid()
    ensures ptr == 0 ==> Snapshot(h, spaces) == old(Snapshot(h, spaces))
    ensures ptr != 0 ==>
      && h.BlockOf(ptr) >= 0
      && Next(old(Snapshot(h, spaces)), Alloc(h.BlockOf(ptr), BlocksFor(size)), Snapshot(h, spaces))
  {
    hide Inv, Zeroed, Taken;
    ptr := h.Kzalloc(size);
    if ptr != 0 {
      var b, n := h.BlockOf(ptr), BlocksFor(size);
      BlocksForIff(size);
      TakenAddsRun(old(h.entries[..]), old(h.live), b, n);
      ZeroedFrame(old(h.pool[..]), b, n, size);
    }
  }

  method FreeRun(h: Heap, ptr: Word, ghost spaces: set<Space>)
    requires h.Valid() && h.saddr <= ptr && Private(Snapshot(h, spaces), h.BlockOf(ptr))
    modifies h`live, h.entries
    ensures h.Valid()
    ensures Next(old(Snapshot(h, spaces)), Release(h.BlockOf(ptr)), Snapshot(h, spaces))
  {
    h.Free(ptr);
  }

  method WriteWord(h: Heap, start: nat, w: nat, value: Word, ghost spaces: set<Space>)
    requires h.Valid() && Private(Snapshot(h, spaces), start)
    requires w < h.pool.Length && InRange(w / WORDS, start, h.live[start])
    modifies h.pool
    ensures h.Valid()
    ensures Next(old(Snapshot(h, spaces)), Write(start), Snapshot(h, spaces))
  {
    h.pool[w] := value;
  }

  method CreateSpace(h: Heap, flags: Word, ghost spaces: set<Space>) returns (chunk: Word, ghost sp: Space)
    requires h.Valid() && flags < 0x100 && FreeCount(h.entries[..]) >= WORDS + 2
    modifies h`live, h.entries, h.pool
    ensures h.Valid() && chunk == h.AddressOf(sp.chunk)
    ensures Next(old(Snapshot(h, spaces)), New(flags, sp), Snapshot(h, spaces + {sp}))
  {
    hide NewSpace, FreeCount;
    chunk, sp := New4Gb(h, flags);
  }

  method MapSpace(h: Heap, chunk: Word, virt: Word, phys: Word, physEnd: Word, flags: Word,
                  ghost sp: Space, ghost spaces: set<Space>)
    returns (res: int)
    requires h.Valid() && Inv(Snapshot(h, spaces)) && sp in spaces && chunk == h.AddressOf(sp.chunk)
    modifies h.pool
    ensures h.Valid()
    ensures Next(old(Snapshot(h, spaces)), MapIn(sp, virt, phys, physEnd, flags), Snapshot(h, spaces))
  {
    hide Wired, Flat, MapToFlat, SameOutside, Represents, Disjoint;
    res := MapTo(h, chunk, virt, phys, physEnd, flags, sp);
  }

  method FreeSpace(h: Heap, chunk: Word, ghost sp: Space, ghost spaces: set<Space>)
    requires h.Valid() && Inv(Snapshot(h, spaces)) && sp in spaces && chunk == h.AddressOf(sp.chunk)
    modifies h`live, h.entries
    ensures h.Valid()
    ensures Next(old(Snapshot(h, spaces)), Drop(sp), Snapshot(h, spaces - {sp}))
  {
    hide Wired, Flat, Represents, Disjoint;
    Free4Gb(h, chunk, sp);
  }
}
