/** A process's allocation slots, kept in step with the heap and its page tables. */
module Process {
  import opened Bits
  import opened Bytes
  import opened HeapTable
  import opened HeapRuns
  import opened KernelHeap
  import opened AddressSpace
  import opened Paging

  const MAX_ALLOCATIONS: int := 1024

  datatype Allocation = Allocation(ptr: Word, size: Word)

  // ---- What a used slot stands for ----

  /** The n pages from vp on map to themselves with the given flags. */
  ghost predicate SelfMapped(f: PageMap, vp: nat, n: nat, flags: Word) {
    vp + n <= PAGES && forall p | vp <= p < vp + n :: f[p] == Or(PAGE * p, flags)
  }

  /** A used slot names a live run that fits its size, outside the space's own blocks,
      whose pages map to themselves present, writable and open to the user. */
  ghost predicate SlotOk(saddr: Word, live: Runs, f: PageMap, sp: Space, a: Allocation) {
    var b := (a.ptr - saddr) / PAGE;
    && 1 <= a.size <= TWO32 - PAGE
    && b >= 0 && a.ptr == saddr + PAGE * b
    && b in live && live[b] == BlocksFor(a.size) && b !in Blocks(sp)
    && SelfMapped(f, a.ptr / PAGE, BlocksFor(a.size), READ_WRITE)
  }

  ghost predicate SlotsOk(saddr: Word, live: Runs, f: PageMap, sp: Space, slots: seq<Allocation>) {
    && |slots| == 1024
    && (forall i | 0 <= i < |slots| && slots[i].ptr != 0 :: SlotOk(saddr, live, f, sp, slots[i]))
    && (forall i, j | 0 <= i < j < |slots| && slots[i].ptr != 0 :: slots[i].ptr != slots[j].ptr)
  }

  /** Two slots never share a block. */
  lemma SlotsApart(saddr: Word, total: nat, live: Runs, f: PageMap, sp: Space, slots: seq<Allocation>,
                   i: nat, j: nat)
    requires Disjoint(live, total) && SlotsOk(saddr, live, f, sp, slots)
    requires i < j < |slots| && slots[i].ptr != 0 && slots[j].ptr != 0
    ensures var b, c := (slots[i].ptr - saddr) / PAGE, (slots[j].ptr - saddr) / PAGE;
      b >= 0 && c >= 0 && Range(b, BlocksFor(slots[i].size)) !! Range(c, BlocksFor(slots[j].size))
  {
  }

  // ---- The page-table side ----

  /** Where a request ends, rounded up to a page. */
  lemma RequestEnd(ptr: Word, size: Word)
    requires ptr % PAGE == 0 && 1 <= size <= TWO32 - PAGE && ptr + PAGE * BlocksFor(size) < TWO32
    ensures ptr + size < TWO32 && AlignUp(ptr + size) == ptr + PAGE * BlocksFor(size)
    ensures BlocksFor(size) >= 1
  {
    hide AlignUp;
    BlocksForIff(size);
    AlignUpValue(ptr + size, ptr / PAGE + size / PAGE, size % PAGE);
  }

  /** Mapping a run onto itself gives its pages the new flags and keeps all others. */
  lemma SelfMapEffect(f: PageMap, ptr: Word, n: nat, flags: Word)
    requires ptr % PAGE == 0 && ptr + PAGE * n < TWO32
    ensures var f' := MapToFlat(f, ptr, ptr, ptr + PAGE * n, flags);
      && SelfMapped(f', ptr / PAGE, n, flags)
      && forall p | 0 <= p < PAGES && !(ptr / PAGE <= p < ptr / PAGE + n) :: f'[p] == f[p]
  {
    var vp := ptr / PAGE;
    var f' := MapToFlat(f, ptr, ptr, ptr + PAGE * n, flags);
    assert MapToAccepts(ptr, ptr, ptr + PAGE * n);
    assert (ptr + PAGE * n - ptr) / PAGE == n;
    forall p | 0 <= p < PAGES
      ensures f'[p] == if vp <= p < vp + n then Or(PAGE * p, flags) else f[p]
    {
      assert Offset(p, vp) == if vp <= p then p - vp else p - vp + PAGES;
    }
  }

  /** Allocating and freeing does not bring a page back to what it was: its entry ends as
      its bare address, without the present bit a fresh task's pages have. */
  lemma MallocThenFreePages(f: PageMap, ptr: Word, n: nat, p: nat)
    requires ptr % PAGE == 0 && ptr + PAGE * n < TWO32 && p < PAGES
    ensures var g := MapToFlat(f, ptr, ptr, ptr + PAGE * n, READ_WRITE);
      MapToFlat(g, ptr, ptr, ptr + PAGE * n, 0)[p]
      == if ptr / PAGE <= p < ptr / PAGE + n then PAGE * p else f[p]
  {
    hide MapToFlat;
    SelfMapEffect(f, ptr, n, READ_WRITE);
    SelfMapEffect(MapToFlat(f, ptr, ptr, ptr + PAGE * n, READ_WRITE), ptr, n, 0);
    OrFlags(PAGE * p, 0);
  }

  lemma OtherSlotKept(saddr: Word, total: nat, live: Runs, f: PageMap, sp: Space, a: Allocation,
                      live': Runs, f': PageMap, ptr: Word, n: nat)
    requires SlotOk(saddr, live, f, sp, a) && saddr % PAGE == 0
    requires ptr >= saddr && ptr % PAGE == 0 && a.ptr != ptr
    requires var b := (ptr - saddr) / PAGE;
      && (live' == live[b := n] || live' == live - {b})
      && Disjoint(live[b := n], total)
    requires forall p | 0 <= p < PAGES && !(ptr / PAGE <= p < ptr / PAGE + n) :: f'[p] == f[p]
    ensures SlotOk(saddr, live', f', sp, a)
  {
    var b: nat, c: nat := (ptr - saddr) / PAGE, (a.ptr - saddr) / PAGE;
    assert ptr == saddr + PAGE * b && ptr / PAGE == saddr / PAGE + b && a.ptr / PAGE == saddr / PAGE + c;
    var all := live[b := n];
    assert b != c && b in all && c in all && all[c] == live[c];
    assert b + n <= c || c + live[c] <= b;
  }

  /** The pages of a used slot map to themselves, present, writable and open to the user. */
  lemma SlotPages(saddr: Word, live: Runs, f: PageMap, sp: Space, a: Allocation)
    requires SlotOk(saddr, live, f, sp, a)
    ensures a.ptr / PAGE + BlocksFor(a.size) <= PAGES
    ensures forall p: nat | a.ptr / PAGE <= p < a.ptr / PAGE + BlocksFor(a.size) ::
      Frame(f[p]) == PAGE * p && Bit(f[p], 0) && Bit(f[p], 1) && Bit(f[p], 2)
  {
    hide Bit;
    FlagValues();
    forall p: nat | a.ptr / PAGE <= p < a.ptr / PAGE + BlocksFor(a.size)
      ensures Frame(f[p]) == PAGE * p && Bit(f[p], 0) && Bit(f[p], 1) && Bit(f[p], 2)
    {
      OrFlags(PAGE * p, READ_WRITE);
      FlagDigits(f[p], READ_WRITE);
    }
  }

  lemma MallocKeepsSlots(saddr: Word, total: nat, live: Runs, f: PageMap, sp: Space,
                         slots: seq<Allocation>, i: nat, ptr: Word, size: Word)
    requires SlotsOk(saddr, live, f, sp, slots) && i < |slots| && slots[i].ptr == 0
    requires saddr % PAGE == 0 && ptr >= saddr > 0 && ptr % PAGE == 0 && 1 <= size <= TWO32 - PAGE
    requires ptr + PAGE * BlocksFor(size) < TWO32 && Owned(live, sp)
    requires var b := (ptr - saddr) / PAGE;
      b !in live && Disjoint(live[b := BlocksFor(size)], total)
    ensures var b, n := (ptr - saddr) / PAGE, BlocksFor(size);
      SlotsOk(saddr, live[b := n], MapToFlat(f, ptr, ptr, ptr + PAGE * n, READ_WRITE), sp,
              slots[i := Allocation(ptr, size)])
  {
    hide MapToFlat, SelfMapped;
    var b, n := (ptr - saddr) / PAGE, BlocksFor(size);
    var live', f', slots' := live[b := n], MapToFlat(f, ptr, ptr, ptr + PAGE * n, READ_WRITE),
                             slots[i := Allocation(ptr, size)];
    SelfMapEffect(f, ptr, n, READ_WRITE);
    assert SlotOk(saddr, live', f', sp, slots'[i]);
    forall j | 0 <= j < |slots| && slots[j].ptr != 0
      ensures slots[j].ptr != ptr && SlotOk(saddr, live', f', sp, slots[j])
    {
      assert SlotOk(saddr, live, f, sp, slots[j]);
      OtherSlotKept(saddr, total, live, f, sp, slots[j], live', f', ptr, n);
    }
  }

  lemma FreeKeepsSlots(saddr: Word, total: nat, live: Runs, f: PageMap, sp: Space,
                       slots: seq<Allocation>, i: nat)
    requires SlotsOk(saddr, live, f, sp, slots) && i < |slots| && slots[i].ptr != 0
    requires saddr % PAGE == 0 && Disjoint(live, total) && saddr + PAGE * total < TWO32
    ensures var a := slots[i];
      var b, n := (a.ptr - saddr) / PAGE, BlocksFor(a.size);
      && a.ptr + PAGE * n < TWO32
      && SlotsOk(saddr, live - {b}, MapToFlat(f, a.ptr, a.ptr, a.ptr + PAGE * n, 0), sp, slots[i := Allocation(0, 0)])
  {
    hide MapToFlat, SelfMapped;
    var a := slots[i];
    assert SlotOk(saddr, live, f, sp, a);
    var b, n := (a.ptr - saddr) / PAGE, BlocksFor(a.size);
    var live', f' := live - {b}, MapToFlat(f, a.ptr, a.ptr, a.ptr + PAGE * n, 0);
    SelfMapEffect(f, a.ptr, n, 0);
    assert live[b := n] == live;
    forall j | 0 <= j < |slots| && slots[j].ptr != 0 && j != i
      ensures SlotOk(saddr, live', f', sp, slots[j])
    {
      assert SlotOk(saddr, live, f, sp, slots[j]);
      OtherSlotKept(saddr, total, live, f, sp, slots[j], live', f', a.ptr, n);
    }
  }
  // ---- The routines ----

  /** The heap's live runs and pool as a value. */
  datatype Memory = Memory(saddr: Word, total: nat, live: Runs, pool: seq<Word>)

  ghost function MemoryOf(h: Heap): Memory
    reads h, h.pool
  {
    Memory(h.saddr, h.entries.Length, h.live, h.pool[..])
  }

  /** What process_malloc does: nothing to runs, slots and page map on failure; else one
      fresh run, recorded in an empty slot and mapped onto itself for the user. Only the
      caller's page tables and blocks of no live run are written, and the granted bytes are
      zero. */
  ghost predicate MallocDone(m: Memory, sp: Space, slots: seq<Allocation>, size: Word, ptr: Word,
                             slot: int, touched: set<nat>, m': Memory, slots': seq<Allocation>) {
    && m'.saddr == m.saddr && m'.total == m.total
    && Wired(m.saddr, m.pool, sp) && Wired(m.saddr, m'.pool, sp)
    && SameOutside(m.pool, m'.pool, touched + Elements(sp.tables))
    && (forall s: nat, i: nat | Covers(m.live, s, i) :: i !in touched)
    && var f, f' := Flat(m.saddr, m.pool, sp), Flat(m.saddr, m'.pool, sp);
       if ptr == 0 then
         m'.live == m.live && slots' == slots && f' == f
       else
         var b, n := (ptr - m.saddr) / PAGE, BlocksFor(size);
         && b >= 0 && ptr == m.saddr + PAGE * b && ptr + PAGE * n < TWO32
         && b !in m.live && m'.live == m.live[b := n] && Disjoint(m'.live, m.total)
         && 0 <= slot < |slots| && slots[slot].ptr == 0
         && slots' == slots[slot := Allocation(ptr, size)]
         && f' == MapToFlat(f, ptr, ptr, ptr + PAGE * n, READ_WRITE)
         && PAGE * b + size <= 4 * |m'.pool|
         && forall j: nat | PAGE * b <= j < PAGE * b + size :: LoadByte(m'.pool, j) == 0
  }

  /** What process_free does for a recorded pointer: its run goes, its slot is emptied and
      its pages lose all flags. */
  ghost predicate FreeDone(m: Memory, sp: Space, slots: seq<Allocation>, ptr: Word, slot: int,
                           m': Memory, slots': seq<Allocation>) {
    && m'.saddr == m.saddr && m'.total == m.total
    && Wired(m.saddr, m.pool, sp) && Wired(m.saddr, m'.pool, sp)
    && SameOutside(m.pool, m'.pool, Elements(sp.tables))
    && 0 <= slot < |slots| && slots[slot].ptr == ptr && slots' == slots[slot := Allocation(0, 0)]
    && var b, n := (ptr - m.saddr) / PAGE, BlocksFor(slots[slot].size);
    && b in m.live && m.live[b] == n && m'.live == m.live - {b} && ptr + PAGE * n < TWO32
    && Flat(m.saddr, m'.pool, sp)
       == MapToFlat(Flat(m.saddr, m.pool, sp), ptr, ptr, ptr + PAGE * n, 0)
  }

  class Process {
    const pageDirectory: Word  // chunk of the process's task
    const allocations: array<Allocation>

    constructor (pageDirectory: Word)
      ensures this.pageDirectory == pageDirectory && fresh(allocations)
      ensures allocations.Length == 1024
      ensures forall i | 0 <= i < MAX_ALLOCATIONS :: allocations[i] == Allocation(0, 0)
    {
      this.pageDirectory := pageDirectory;
      allocations := new Allocation[MAX_ALLOCATIONS](_ => Allocation(0, 0));
    }

    /** The heap is sound, the page tables belong to this process, and every used slot
        agrees with both. */
    ghost predicate Valid(h: Heap, sp: Space)
      reads this, allocations, h, h.entries, h.pool
    {
      && h.Valid() && (allocations as object) != h.entries && (allocations as object) != h.pool
      && Wired(h.saddr, h.pool[..], sp) && Owned(h.live, sp)
      && pageDirectory == h.AddressOf(sp.chunk)
      && SlotsOk(h.saddr, h.live, Flat(h.saddr, h.pool[..], sp), sp, allocations[..])
    }

    /** process_find_free_allocation_index. */
    method FindFreeAllocationIndex() returns (res: int)
      requires allocations.Length == MAX_ALLOCATIONS
      ensures res == -ENOMEM || 0 <= res < MAX_ALLOCATIONS
      ensures res >= 0 ==> allocations[res].ptr == 0
      ensures forall i | 0 <= i < if res < 0 then MAX_ALLOCATIONS else res :: allocations[i].ptr != 0
    {
      for i := 0 to MAX_ALLOCATIONS
        invariant forall j | 0 <= j < i :: allocations[j].ptr != 0
      {
        if allocations[i].ptr == 0 {
          return i;
        }
      }
      return -ENOMEM;
    }

    /** process_get_allocation_by_addr. */
    method FindAllocation(addr: Word) returns (res: int)
      requires allocations.Length == MAX_ALLOCATIONS
      ensures -1 <= res < MAX_ALLOCATIONS
      ensures res >= 0 ==> allocations[res].ptr == addr
      ensures forall i | 0 <= i < if res < 0 then MAX_ALLOCATIONS else res :: allocations[i].ptr != addr
    {
      for i := 0 to MAX_ALLOCATIONS
        invariant forall j | 0 <= j < i :: allocations[j].ptr != addr
      {
        if allocations[i].ptr == addr {
          return i;
        }
      }
      return -1;
    }

    /** process_allocation_unjoin: every slot that records ptr is emptied. */
    method Unjoin(ptr: Word)
      requires allocations.Length == MAX_ALLOCATIONS && ptr != 0
      modifies allocations
      ensures forall i | 0 <= i < MAX_ALLOCATIONS ::
        allocations[i] == if old(allocations[i].ptr) == ptr then Allocation(0, 0) else old(allocations[i])
    {
      for i := 0 to MAX_ALLOCATIONS
        invariant forall j | 0 <= j < MAX_ALLOCATIONS ::
          allocations[j] == if j < i && old(allocations[j].ptr) == ptr then Allocation(0, 0) else old(allocations[j])
      {
        if allocations[i].ptr == ptr {
          allocations[i] := Allocation(0, 0);
        }
      }
    }

    /** The end of process_malloc: the run is mapped for the user and entered in the slot. */
    method Record(h: Heap, index: nat, ptr: Word, size: Word, ghost sp: Space)
      requires h.Valid() && (allocations as object) != h.entries && (allocations as object) != h.pool
      requires Wired(h.saddr, h.pool[..], sp) && pageDirectory == h.AddressOf(sp.chunk)
      requires index < allocations.Length
      requires ptr % PAGE == 0 && 1 <= size <= TWO32 - PAGE && ptr + PAGE * BlocksFor(size) < TWO32
      modifies h.pool, allocations
      ensures h.Valid() && Wired(h.saddr, h.pool[..], sp)
      ensures SameOutside(old(h.pool[..]), h.pool[..], Elements(sp.tables))
      ensures Flat(h.saddr, h.pool[..], sp)
              == MapToFlat(old(Flat(h.saddr, h.pool[..], sp)), ptr, ptr, ptr + PAGE * BlocksFor(size), READ_WRITE)
      ensures allocations[..] == old(allocations[..])[index := Allocation(ptr, size)]
    {
      hide MapToFlat, Wired, Flat, Represents, AlignUp, SameOutside, BlocksFor;
      RequestEnd(ptr, size);
      var res := MapTo(h, pageDirectory, ptr, ptr, AlignUp(ptr + size), READ_WRITE, sp);
      assert res == 0;  // the error exit is not taken: a heap run is an accepted range
      allocations[index] := Allocation(ptr, size);
    }

    /** process_malloc. */
    method Malloc(h: Heap, size: Word, ghost sp: Space) returns (ptr: Word, ghost slot: int, ghost touched: set<nat>)
      requires Valid(h, sp)
      requires 1 <= size <= TWO32 - PAGE && MallocSafe(h.entries[..], BlocksFor(size))
      modifies h`live, h.entries, h.pool, allocations
      ensures Valid(h, sp)
      ensures MallocDone(old(MemoryOf(h)), sp, old(allocations[..]), size, ptr, slot, touched,
                         MemoryOf(h), allocations[..])
      ensures ptr == 0 ==>
        && h.entries[..] == old(h.entries[..])
        && (!HasFit(h.entries[..], BlocksFor(size)) || forall i | 0 <= i < MAX_ALLOCATIONS :: allocations[i].ptr != 0)
      ensures ptr != 0 ==>
        && FirstFit(old(h.entries[..]), BlocksFor(size), h.BlockOf(ptr))
        && forall i | 0 <= i < slot :: old(allocations[i].ptr) != 0
    {
      hide SlotsOk, MapToFlat, Wired, Flat, Zeroed, Represents, Taken, HeapStep, AlignUp, Owned, SameOutside,
           FirstFit, FitsAt, HasFit, LastTaken, MallocSafe, Disjoint, Range, BlocksFor, LoadByte;
      slot, touched := -1, {};
      SameEverywhere(h.pool[..], touched + Elements(sp.tables));
      ghost var f, slots := Flat(h.saddr, h.pool[..], sp), allocations[..];
      ptr := h.Kzalloc(size);
      if ptr == 0 {
        return;
      }
      ghost var b, n := h.BlockOf(ptr), BlocksFor(size);
      RequestFits(old(h.entries[..]), size, b);
      FreshRunIsForeign(old(h.entries[..]), old(h.live), old(h.pool[..]), h.saddr, sp, b, n, size);
      touched := Range(b, n);
      ghost var mem := h.pool[..];
      FramesJoin(old(h.pool[..]), mem, mem, touched, Elements(sp.tables));
      assert |slots| == MAX_ALLOCATIONS by { SlotCount(h.saddr, old(h.live), f, sp, slots); }
      var index := FindFreeAllocationIndex();
      if index < 0 {
        h.Free(ptr);
        assert h.live == old(h.live);
        EncodingUnique(h.entries[..], old(h.entries[..]), h.live);
        return 0, slot, touched;
      }
      Record(h, index, ptr, size, sp);
      slot := index;
      FramesJoin(old(h.pool[..]), mem, h.pool[..], touched, Elements(sp.tables));
      BytesKept(mem, h.pool[..], Elements(sp.tables), b, n, size);
      MallocKeepsSlots(h.saddr, h.entries.Length, old(h.live), f, sp, slots, index, ptr, size);
    }

    /** process_free. */
    method Free(h: Heap, ptr: Word, ghost sp: Space) returns (ghost slot: int)
      requires Valid(h, sp) && ptr != 0
      modifies h`live, h.entries, h.pool, allocations
      ensures Valid(h, sp)
      ensures (exists i | 0 <= i < MAX_ALLOCATIONS :: old(allocations[i].ptr) == ptr) <==> slot >= 0
      ensures slot < 0 ==>
        && h.live == old(h.live) && h.entries[..] == old(h.entries[..])
        && h.pool[..] == old(h.pool[..]) && allocations[..] == old(allocations[..])
      ensures slot >= 0 ==> FreeDone(old(MemoryOf(h)), sp, old(allocations[..]), ptr, slot,
                                     MemoryOf(h), allocations[..])
    {
      hide SlotsOk, MapToFlat, Wired, Flat, Represents, HeapStep, AlignUp, SameOutside, Freed, Owned,
           Disjoint, BlocksFor;
      ghost var f, slots, live := Flat(h.saddr, h.pool[..], sp), allocations[..], h.live;
      SlotCount(h.saddr, live, f, sp, slots);
      var index := FindAllocation(ptr);
      slot := index;
      if index < 0 {
        return;
      }
      var size := allocations[index].size;
      RecordedSlot(h.saddr, live, f, sp, slots, index);
      RunsAreDisjoint(h.entries[..], live);
      FreeKeepsSlots(h.saddr, h.entries.Length, live, f, sp, slots, index);
      RequestEnd(ptr, size);
      var res := MapTo(h, pageDirectory, ptr, ptr, AlignUp(ptr + size), 0, sp);
      assert res == 0;  // the early return is not taken: a recorded run is an accepted range
      Unjoin(ptr);
      assert allocations[..] == slots[index := Allocation(0, 0)];
      OwnedKept(live, sp, h.BlockOf(ptr));
      h.Free(ptr);
    }
  }

  /** A granted request of at least one byte has a fit that holds it. */
  lemma RequestFits(t: Table, size: Word, b: nat)
    requires 1 <= size <= TWO32 - PAGE && MallocSafe(t, BlocksFor(size)) && FirstFit(t, BlocksFor(size), b)
    ensures BlocksFor(size) >= 1 && FitsAt(t, b, BlocksFor(size)) && size <= PAGE * BlocksFor(size)
    ensures b + BlocksFor(size) <= |t|
  {
  }

  /** Writes outside a run leave its bytes alone. */
  lemma BytesKept(mem: seq<Word>, mem': seq<Word>, blocks: set<nat>, b: nat, n: nat, size: nat)
    requires SameOutside(mem, mem', blocks) && Range(b, n) !! blocks
    requires size <= PAGE * n && PAGE * b + size <= 4 * |mem|
    ensures forall j: nat | PAGE * b <= j < PAGE * b + size :: LoadByte(mem', j) == LoadByte(mem, j)
  {
    hide ByteOf;
    forall j: nat | PAGE * b <= j < PAGE * b + size
      ensures LoadByte(mem', j) == LoadByte(mem, j)
    {
      assert InRange(j / 4 / WORDS, b, n);
    }
  }

  lemma SlotCount(saddr: Word, live: Runs, f: PageMap, sp: Space, slots: seq<Allocation>)
    requires SlotsOk(saddr, live, f, sp, slots)
    ensures |slots| == MAX_ALLOCATIONS
  {
  }

  /** A used slot is a live run, recorded once. */
  lemma RecordedSlot(saddr: Word, live: Runs, f: PageMap, sp: Space, slots: seq<Allocation>, i: nat)
    requires SlotsOk(saddr, live, f, sp, slots) && i < |slots| && slots[i].ptr != 0
    ensures var b := (slots[i].ptr - saddr) / PAGE;
      && 1 <= slots[i].size <= TWO32 - PAGE
      && b >= 0 && slots[i].ptr == saddr + PAGE * b
      && b in live && live[b] == BlocksFor(slots[i].size) && b !in Blocks(sp)
    ensures forall j | 0 <= j < |slots| && j != i :: slots[j].ptr != slots[i].ptr
  {
  }

  lemma RunsAreDisjoint(t: Table, live: Runs)
    requires Represents(t, live)
    ensures Disjoint(live, |t|)
  {
  }

  /** A run just allocated and cleared lies outside the space, whose flat map is unchanged. */
  lemma FreshRunIsForeign(t: Table, live: Runs, mem: seq<Word>, saddr: Word, sp: Space,
                          b: nat, n: nat, size: nat)
    requires Represents(t, live) && FitsAt(t, b, n) && n >= 1 && size <= PAGE * n
    requires Wired(saddr, mem, sp) && Owned(live, sp)
    ensures b !in live && Disjoint(live[b := n], |t|) && Owned(live[b := n], sp)
    ensures forall s: nat, i: nat | Covers(live, s, i) :: i !in Range(b, n)
    ensures Range(b, n) !! Elements(sp.tables)
    ensures var mem' := Zeroed(mem, WORDS * b, size);
      && SameOutside(mem, mem', Range(b, n)) && SameOutside(mem', mem', Elements(sp.tables))
      && Wired(saddr, mem', sp) && Flat(saddr, mem', sp) == Flat(saddr, mem, sp)
  {
    hide Wired, Flat, Zeroed;
    TakenAddsRun(t, live, b, n);
    ZeroedFrame(mem, b, n, size);
    forall x | x in Blocks(sp)
      ensures x !in Range(b, n)
    {
      assert Covers(live, x, x);
    }
    SpaceFrame(saddr, mem, Zeroed(mem, WORDS * b, size), sp, Range(b, n));
  }
  // ---- Other processes ----

  /** What an allocation or a free by one process does to the live runs, as seen by the
      holder of other slots and another space. */
  ghost predicate OthersRuns(saddr: Word, live: Runs, live': Runs, b: nat, n: nat,
                             other: Space, slots: seq<Allocation>) {
    || live' == live
    || (b !in live && live' == live[b := n])
    || (live' == live - {b} && b !in Blocks(other)
        && forall i | 0 <= i < |slots| && slots[i].ptr != 0 :: slots[i].ptr != saddr + PAGE * b)
  }

  /** process_malloc and process_free of one process leave every other process's page
      tables and slots in order: writes go to the caller's tables and to fresh blocks. */
  lemma OtherProcessKept(saddr: Word, live: Runs, mem: seq<Word>, sp: Space, touched: set<nat>,
                         live': Runs, mem': seq<Word>, b: nat, n: nat,
                         other: Space, slots: seq<Allocation>)
    requires Wired(saddr, mem, other) && Owned(live, other)
    requires SlotsOk(saddr, live, Flat(saddr, mem, other), other, slots)
    requires Blocks(sp) !! Blocks(other)
    requires SameOutside(mem, mem', touched + Elements(sp.tables))
    requires forall s: nat, i: nat | Covers(live, s, i) :: i !in touched
    requires OthersRuns(saddr, live, live', b, n, other, slots)
    ensures Wired(saddr, mem', other) && Owned(live', other)
    ensures Flat(saddr, mem', other) == Flat(saddr, mem, other)
    ensures SlotsOk(saddr, live', Flat(saddr, mem', other), other, slots)
  {
    hide Wired, Flat, SelfMapped, SameOutside;
    forall x | x in Blocks(other)
      ensures x !in touched + Elements(sp.tables)
    {
      assert Covers(live, x, x);
    }
    SpaceFrame(saddr, mem, mem', other, touched + Elements(sp.tables));
    var f := Flat(saddr, mem, other);
    forall i | 0 <= i < |slots| && slots[i].ptr != 0
      ensures SlotOk(saddr, live', f, other, slots[i])
    {
      assert SlotOk(saddr, live, f, other, slots[i]);
    }
  }
}
