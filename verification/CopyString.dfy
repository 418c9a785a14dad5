/** Copying a string out of a task through a temporary mapping that leaves no trace. */
module CopyString {
  import opened Bits
  import opened HeapTable
  import opened HeapRuns
  import opened KernelHeap
  import opened AddressSpace
  import opened Paging
  import opened Bytes
  import opened PoolBytes

  /** Storing another entry and then the old one again is no change. */
  lemma MapAndRestore(f: PageMap, p: nat, v: Word)
    requires p < PAGES
    ensures f[p := v][p := f[p]] == f
  {
  }

  /** The block found for the copy: part of no live run before, and outside the space. */
  lemma TemporaryBlock(t: Table, live: Runs, sp: Space, n: nat, b: nat)
    requires Represents(t, live) && Owned(live, sp) && n <= 1 && b < |t|
    requires FirstFit(t, n, b) && MallocSafe(t, n)
    ensures b !in live && b !in Blocks(sp) && t[b] == FREE && Taken(t, b, n)[b] == RunOrFree(n)
    ensures b + 1 <= |t|
  {
    assert IsFree(t[b]);
    FreeByteIsZero(t, live, b);
    if b in live {
      assert Covers(live, b, b);
      assert false;
    }
  }

  function RunOrFree(n: nat): Byte {
    if n == 0 then FREE else RunByte(n, 0)
  }

  /** Map the buffer in the task, copy into it, put the old entry back and copy out. */
  method CopyThrough(h: Heap, chunk: Word, tmp: Word, src: seq<Octet>, max: nat, ghost sp: Space, b: nat)
    returns (res: int, out: seq<Octet>)
    requires Wired(h.saddr, h.pool[..], sp) && chunk == h.AddressOf(sp.chunk) && Aligned(h.saddr)
    requires tmp == h.AddressOf(b) && InPool(h.pool.Length, b) && b !in Blocks(sp)
    requires 0 !in src && max < PAGE
    modifies h.pool
    ensures Wired(h.saddr, h.pool[..], sp)
    ensures Flat(h.saddr, h.pool[..], sp) == old(Flat(h.saddr, h.pool[..], sp))
    ensures SameOutside(old(h.pool[..]), h.pool[..], Elements(sp.tables) + {b})
    ensures res == 0 && out == Prefix(src, max)
    ensures out <= src && |out| == if max == 0 then 0 else if |src| < max then |src| else max - 1
  {
    hide Wired, Flat, HoldsString, SameOutside, Prefix, LoadByte;
    ghost var f, mem0 := Flat(h.saddr, h.pool[..], sp), h.pool[..];
    ChunkWord(h.saddr, h.pool[..], sp);
    var directory := h.pool[(chunk - h.saddr) / 4];
    var oldEntry := Get(h, directory, tmp, sp);
    var _ := Map(h, chunk, tmp, tmp, READ_WRITE, sp);
    ghost var mem1 := h.pool[..];
    CopyIn(h, PAGE * b, src, max);
    assert (PAGE * b) / PAGE == b;
    ghost var mem2 := h.pool[..];
    SpaceFrame(h.saddr, mem1, mem2, sp, {b});
    res := Set(h, directory, tmp, oldEntry, sp);
    MapAndRestore(f, tmp / PAGE, Or(tmp, READ_WRITE));
    TablesKeepString(mem2, h.pool[..], sp, b, PAGE * b, Prefix(src, max));
    out := CopyOut(h, PAGE * b, max, Prefix(src, max));
    FramesJoin(mem0, mem1, mem2, Elements(sp.tables), {b});
    FramesJoin(mem0, mem2, h.pool[..], Elements(sp.tables) + {b}, Elements(sp.tables));
    assert Elements(sp.tables) + {b} + Elements(sp.tables) == Elements(sp.tables) + {b};
  }

  /** copy_string_from_task for a task whose address space shows `src` at the given
      address. The task's page tables and the heap table are as before on every path. */
  method CopyStringFromTask(h: Heap, chunk: Word, src: seq<Octet>, max: nat, ghost sp: Space)
    returns (res: int, out: seq<Octet>)
    requires h.Valid() && Wired(h.saddr, h.pool[..], sp) && Owned(h.live, sp)
    requires chunk == h.AddressOf(sp.chunk) && 0 !in src
    modifies h`live, h.entries, h.pool
    ensures h.Valid() && h.live == old(h.live) && h.entries[..] == old(h.entries[..])
    ensures Wired(h.saddr, h.pool[..], sp)
    ensures Flat(h.saddr, h.pool[..], sp) == old(Flat(h.saddr, h.pool[..], sp))
    ensures res == if max >= PAGE then -EINVARG
                   else if LastTaken(h.entries[..]) && !HasFit(h.entries[..], if max == 0 then 0 else 1) then -ENOMEM
                   else 0
    ensures res != 0 ==> h.pool[..] == old(h.pool[..]) && out == []
    ensures res == 0 ==>
      out <= src && |out| == if max == 0 then 0 else if |src| < max then |src| else max - 1
    ensures res == 0 ==> exists b: nat | b !in h.live && b !in Blocks(sp) ::
      SameOutside(old(h.pool[..]), h.pool[..], Elements(sp.tables) + {b})
  {
    hide Wired, Flat, Represents, Taken, Zeroed, HeapStep, Freed, SameOutside, Prefix;
    out := [];
    if max >= PAGE {
      return -EINVARG, out;
    }
    ghost var n := BlocksFor(max);
    assert n == if max == 0 then 0 else 1;
    OneBlockIsSafe(h.entries[..]);
    var tmp := h.Kzalloc(max);
    if tmp == 0 {
      return -ENOMEM, out;
    }
    var b: nat := h.BlockOf(tmp);
    TemporaryBlock(old(h.entries[..]), old(h.live), sp, n, b);
    ZeroedFrame(old(h.pool[..]), b, 1, max);
    assert Range(b, 1) == {b};
    SpaceFrame(h.saddr, old(h.pool[..]), h.pool[..], sp, {b});

    ghost var mem := h.pool[..];
    res, out := CopyThrough(h, chunk, tmp, src, max, sp, b);
    assert {b} + (Elements(sp.tables) + {b}) == Elements(sp.tables) + {b};
    FramesJoin(old(h.pool[..]), mem, h.pool[..], {b}, Elements(sp.tables) + {b});
    h.Free(tmp);
    assert h.live == old(h.live);
    EncodingUnique(h.entries[..], old(h.entries[..]), h.live);
  }

  lemma ChunkWord(saddr: Word, mem: seq<Word>, sp: Space)
    requires Wired(saddr, mem, sp)
    ensures WORDS * sp.chunk < |mem| && mem[WORDS * sp.chunk] == saddr + PAGE * sp.dir
  {
  }

  /** Storing a page entry leaves a string in another block alone. */
  lemma TablesKeepString(mem: seq<Word>, mem': seq<Word>, sp: Space, b: nat, at: nat, s: seq<Octet>)
    requires SameOutside(mem, mem', Elements(sp.tables)) && b !in sp.tables
    requires HoldsString(mem, at, s) && at == PAGE * b && |s| < PAGE
    ensures HoldsString(mem', at, s)
  {
    hide ByteOf;
    forall j: nat | at <= j <= at + |s|
      ensures LoadByte(mem', j) == LoadByte(mem, j)
    {
      assert j / 4 / WORDS == b;
    }
  }
}
