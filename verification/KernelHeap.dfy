/** The kernel heap: an entry table updated in place and the data pool it manages. */
module KernelHeap {
  import opened Bits
  import opened Bytes
  import opened HeapTable
  import opened HeapRuns

  const EINVARG: int := 2
  const WORDS: int := 1024  // 32-bit words in one block

  /** A pool word after a byte-wise clear of `size` bytes that starts k words before it;
      words are little endian, so a partial clear drops the low-order bytes. */
  function ClearedWord(w: Word, k: int, size: int): Word {
    var left := size - 4 * k;
    if k < 0 || left <= 0 then w
    else if left == 1 then w - w % 0x100
    else if left == 2 then w - w % 0x1_0000
    else if left == 3 then w - w % 0x100_0000
    else 0
  }

  /** The pool after memset(word `from`, 0, size). */
  function Zeroed(mem: seq<Word>, from: nat, size: nat): (r: seq<Word>)
    ensures |r| == |mem|
  {
    seq(|mem|, w requires 0 <= w < |mem| => ClearedWord(mem[w], w - from, size))
  }

  lemma ClearedWordByte(w: Word, k: int, size: int, j: int)
    requires 0 <= j < 4
    ensures ByteOf(ClearedWord(w, k, size), j) == if k >= 0 && 4 * k + j < size then 0 else ByteOf(w, j)
  {
    hide ByteOf, Pack;
    var b0, b1, b2, b3 := ByteOf(w, 0), ByteOf(w, 1), ByteOf(w, 2), ByteOf(w, 3);
    Unpack(w);
    LowBytes(b0, b1, b2, b3);
    ByteOfPack(0, 0, 0, 0);
    ByteOfPack(0, b1, b2, b3);
    ByteOfPack(0, 0, b2, b3);
    ByteOfPack(0, 0, 0, b3);
    PackZero();
  }

  /** Clearing `size` bytes zeroes exactly those bytes, at any place and for any size. */
  lemma ZeroedByte(mem: seq<Word>, from: nat, size: nat, j: nat)
    requires j < 4 * |mem|
    ensures LoadByte(Zeroed(mem, from, size), j)
            == if 4 * from <= j < 4 * from + size then 0 else LoadByte(mem, j)
  {
    hide ClearedWord, ByteOf;
    ClearedWordByte(mem[j / 4], j / 4 - from, size, j % 4);
  }

  /** The pools differ only in words of the given blocks. */
  ghost predicate SameOutside(mem: seq<Word>, mem': seq<Word>, blocks: set<nat>) {
    |mem'| == |mem| && forall w | 0 <= w < |mem| && w / WORDS !in blocks :: mem'[w] == mem[w]
  }

  lemma SameEverywhere(mem: seq<Word>, blocks: set<nat>)
    ensures SameOutside(mem, mem, blocks)
  {
  }

  lemma FramesJoin(m0: seq<Word>, m1: seq<Word>, m2: seq<Word>, a: set<nat>, b: set<nat>)
    requires SameOutside(m0, m1, a) && SameOutside(m1, m2, b)
    ensures SameOutside(m0, m2, a + b)
  {
  }

  /** Block b belongs to some live run. */
  ghost predicate LiveBlock(live: Runs, b: int) {
    b >= 0 && exists s: nat :: Covers(live, s, b)
  }

  /** Every word of every live run is as before. */
  ghost predicate KeepsLive(live: Runs, mem: seq<Word>, mem': seq<Word>) {
    |mem'| == |mem| && forall w | 0 <= w < |mem| && LiveBlock(live, w / WORDS) :: mem'[w] == mem[w]
  }

  lemma KeepsLiveJoin(live: Runs, live': Runs, m0: seq<Word>, m1: seq<Word>, m2: seq<Word>)
    requires KeepsLive(live, m0, m1) && KeepsLive(live', m1, m2)
    requires forall s | s in live :: s in live' && live'[s] == live[s]
    ensures KeepsLive(live, m0, m2)
  {
    forall w | 0 <= w < |m0| && LiveBlock(live, w / WORDS)
      ensures m2[w] == m0[w]
    {
      var s: nat :| Covers(live, s, w / WORDS);
      assert Covers(live', s, w / WORDS);
    }
  }

  lemma FreshKeepsLive(live: Runs, mem: seq<Word>, mem': seq<Word>, b: nat)
    requires SameOutside(mem, mem', {b}) && !LiveBlock(live, b)
    ensures KeepsLive(live, mem, mem')
  {
  }

  predicate InRange(i: nat, s: nat, n: nat) {
    s <= i < s + n
  }

  function Range(s: nat, n: nat): set<nat> {
    set i: nat | s <= i < s + n && InRange(i, s, n)
  }

  lemma ZeroedFrame(mem: seq<Word>, b: nat, n: nat, size: nat)
    requires size <= PAGE * n
    ensures SameOutside(mem, Zeroed(mem, WORDS * b, size), Range(b, n))
  {
  }

  class Heap {
    const saddr: Word
    const entries: array<Byte>
    const pool: array<Word>
    ghost var live: Runs

    ghost predicate Valid()
      reads this, entries
    {
      && 0 < saddr && saddr % PAGE == 0
      && saddr + PAGE * entries.Length < TWO32
      && PAGE * entries.Length < 0x8000_0000
      && pool.Length == WORDS * entries.Length
      && Represents(entries[..], live)
    }

    function AddressOf(block: int): (a: int)
      ensures BlockOf(a) == block
    {
      saddr + PAGE * block
    }

    function BlockOf(address: int): int {
      (address - saddr) / PAGE
    }

    constructor (saddr: Word, entries: array<Byte>, pool: array<Word>)
      ensures this.saddr == saddr && this.entries == entries && this.pool == pool && live == map[]
    {
      this.saddr, this.entries, this.pool, live := saddr, entries, pool, map[];
    }

    /** heap_create: both ends aligned and the table size matching the pool, or -EINVARG. */
    static method Create(ptr: Word, end: Word, entries: array<Byte>, pool: array<Word>)
      returns (res: int, heap: Heap)
      requires 0 < ptr <= end && end - ptr < 0x8000_0000
      requires pool.Length == WORDS * entries.Length
      modifies entries
      ensures res == if ptr % PAGE == 0 && end % PAGE == 0 && entries.Length == (end - ptr) / PAGE
                     then 0 else -EINVARG
      ensures fresh(heap) && heap.saddr == ptr && heap.entries == entries && heap.pool == pool
      ensures res == 0 ==> heap.Valid() && heap.live == map[] && entries[..] == AllFree(entries.Length)
      ensures res != 0 ==> entries[..] == old(entries[..])
    {
      heap := new Heap(ptr, entries, pool);
      if ptr % PAGE != 0 || end % PAGE != 0 || entries.Length != (end - ptr) / PAGE {
        return -EINVARG, heap;
      }
      for i := 0 to entries.Length
        invariant heap.live == map[]
        invariant forall j | 0 <= j < i :: entries[j] == FREE
      {
        entries[i] := FREE;
      }
      assert entries[..] == AllFree(entries.Length);
      return 0, heap;
    }

    /** heap_get_start_block. */
    method GetStartBlock(n: nat) returns (r: int)
      requires entries.Length < 0x8000_0000
      ensures FirstFit(entries[..], n, r)
    {
      ghost var t := entries[..];
      var bc, bs := 0, -1;
      var i := 0;
      while i < entries.Length
        invariant 0 <= i <= entries.Length
        invariant bs == -1 ==> bc == 0 && (i == 0 || !IsFree(t[i - 1]))
        invariant bs != -1 ==> 0 <= bs && bc >= 1 && bs + bc == i && FitsAt(t, bs, bc)
                               && (bs == 0 || !IsFree(t[bs - 1]))
        invariant n >= 1 ==> bc < n && forall s | FitsAt(t, s, n) :: s + n > i
      {
        if !IsFree(entries[i]) {
          bc, bs := 0, -1;
        } else {
          if bs == -1 {
            bs := i;
          }
          bc := bc + 1;
          assert FitsAt(t, bs, bc);
          if bc == n {
            break;
          }
        }
        i := i + 1;
      }
      return if bs == -1 then -ENOMEM else bs;
    }

    /** heap_mark_blocks_taken. */
    method MarkBlocksTaken(start: nat, total: nat)
      requires start + total <= entries.Length
      modifies entries
      ensures entries[..] == Taken(old(entries[..]), start, total)
    {
      var end := start + total - 1;
      var entry := TAKEN | IS_FIRST;
      if total > 1 {
        entry := entry | HAS_NEXT;
      }
      var i := start;
      while i <= end
        invariant start <= i <= end + 1
        invariant i <= end ==> entry == RunByte(total, i - start)
        invariant forall j | 0 <= j < entries.Length ::
          entries[j] == if start <= j < i then RunByte(total, j - start) else old(entries[j])
      {
        entries[i] := entry;
        entry := TAKEN;
        if i != end - 1 {
          entry := entry | HAS_NEXT;
        }
        i := i + 1;
      }
    }

    /** heap_malloc_blocks. */
    method MallocBlocks(n: nat) returns (address: Word)
      requires Valid() && MallocSafe(entries[..], n)
      modifies `live, entries
      ensures Valid()
      ensures address == 0 ==> live == old(live) && entries[..] == old(entries[..])
                               && LastTaken(entries[..]) && !HasFit(entries[..], n)
      ensures address != 0 ==> var b := BlockOf(address);
        && 0 <= b < entries.Length && address == AddressOf(b)
        && FirstFit(old(entries[..]), n, b)
        && entries[..] == Taken(old(entries[..]), b, n)
        && live == if n == 0 then old(live) else old(live)[b := n]
    {
      var start := GetStartBlock(n);
      if start < 0 {
        return 0;
      }
      address := AddressOf(start);
      ghost var t := entries[..];
      MallocSafeIff(t, n, start);
      MarkBlocksTaken(start, n);
      if n >= 1 {
        TakenAddsRun(t, live, start, n);
        live := live[start := n];
      } else {
        assert entries[..] == t;
      }
    }

    /** heap_malloc. */
    method Malloc(size: Word) returns (address: Word)
      requires Valid() && MallocSafe(entries[..], BlocksFor(size))
      modifies `live, entries
      ensures Valid() && HeapStep(old(entries[..]), HeapOp.Malloc(size), entries[..])
      ensures address == 0 ==> live == old(live) && entries[..] == old(entries[..])
                               && LastTaken(entries[..]) && !HasFit(entries[..], BlocksFor(size))
      ensures address != 0 ==> var b, n := BlockOf(address), BlocksFor(size);
        && 0 <= b < entries.Length && address == AddressOf(b)
        && FirstFit(old(entries[..]), n, b)
        && entries[..] == Taken(old(entries[..]), b, n)
        && live == if n == 0 then old(live) else old(live)[b := n]
    {
      var aligned := RoundUp(size);
      var n := aligned / PAGE;
      address := MallocBlocks(n);
      if address == 0 {
        assert FirstFit(old(entries[..]), n, -ENOMEM);
      } else if n == 0 {
        assert Taken(old(entries[..]), BlockOf(address), 0) == old(entries[..]);
      }
    }

    /** heap_mark_block_free. */
    method MarkBlockFree(start: nat)
      modifies entries
      ensures entries[..] == Freed(old(entries[..]), start)
    {
      var i := start;
      while i < entries.Length
        invariant start <= i
        invariant Freed(entries[..], i) == Freed(old(entries[..]), start)
      {
        var entry := entries[i];
        ghost var t := entries[..];
        entries[i] := FREE;
        assert entries[..] == t[i := FREE];
        if !HasNext(entry) {
          return;
        }
        i := i + 1;
      }
    }

    /** heap_free. The pointer lies in a run's first block, in a free block, or past the pool. */
    method Free(ptr: Word)
      requires Valid() && saddr <= ptr
      requires var b := BlockOf(ptr); b < entries.Length ==> b in live || entries[b] == FREE
      modifies `live, entries
      ensures Valid()
      ensures live == old(live) - {BlockOf(ptr)}
      ensures entries[..] == Freed(old(entries[..]), BlockOf(ptr))
      ensures BlockOf(ptr) in old(live)
              ==> HeapStep(old(entries[..]), HeapOp.Free(BlockOf(ptr)), entries[..])
    {
      var start := BlockOf(ptr);
      ghost var t := entries[..];
      if start in live {
        FreedRemovesRun(t, live, start);
        FirstByteIsStart(t, live, start);
      } else {
        assert Freed(t, start) == t;
        assert live - {start} == live;
      }
      MarkBlockFree(start);
      live := live - {start};
    }

    /** memset(ptr, 0, size) on the pool. */
    method Clear(from: nat, size: nat)
      requires 4 * from + size <= 4 * pool.Length
      modifies pool
      ensures pool[..] == Zeroed(old(pool[..]), from, size)
      ensures forall j: nat | j < 4 * pool.Length ::
        LoadByte(pool[..], j) == if 4 * from <= j < 4 * from + size then 0 else LoadByte(old(pool[..]), j)
    {
      hide LoadByte;
      var k := 0;
      while 4 * k < size
        invariant 0 <= k && 4 * k < size + 4
        invariant forall w | 0 <= w < pool.Length ::
          pool[w] == if w - from < k then ClearedWord(old(pool[w]), w - from, size) else old(pool[w])
      {
        pool[from + k] := ClearedWord(pool[from + k], k, size);
        k := k + 1;
      }
      forall j: nat | j < 4 * pool.Length
        ensures LoadByte(Zeroed(old(pool[..]), from, size), j)
                == if 4 * from <= j < 4 * from + size then 0 else LoadByte(old(pool[..]), j)
      {
        ZeroedByte(old(pool[..]), from, size, j);
      }
    }

    /** kzalloc. */
    method Kzalloc(size: Word) returns (ptr: Word)
      requires Valid() && size <= TWO32 - PAGE && MallocSafe(entries[..], BlocksFor(size))
      modifies `live, entries, pool
      ensures Valid() && HeapStep(old(entries[..]), HeapOp.Malloc(size), entries[..])
      ensures ptr == 0 ==> live == old(live) && entries[..] == old(entries[..])
                           && pool[..] == old(pool[..])
                           && LastTaken(entries[..]) && !HasFit(entries[..], BlocksFor(size))
      ensures ptr != 0 ==> var b, n := BlockOf(ptr), BlocksFor(size);
        && 0 <= b < entries.Length && ptr == AddressOf(b)
        && FirstFit(old(entries[..]), n, b)
        && entries[..] == Taken(old(entries[..]), b, n)
        && live == (if n == 0 then old(live) else old(live)[b := n])
        && pool[..] == Zeroed(old(pool[..]), WORDS * b, size)
        && forall j: nat | j < 4 * pool.Length ::
             LoadByte(pool[..], j) == if PAGE * b <= j < PAGE * b + size then 0 else LoadByte(old(pool[..]), j)
    {
      hide Zeroed, LoadByte;
      ptr := Malloc(size);
      if ptr == 0 {
        return;
      }
      BlocksForIff(size);
      Clear(WORDS * BlockOf(ptr), size);
    }
  }
  /** kzalloc of at most one block when a block is free: it cannot fail. */
  method KzallocBlock(h: Heap, size: Word) returns (ptr: Word)
    requires h.Valid() && 1 <= size <= PAGE && FreeCount(h.entries[..]) > 0
    modifies h`live, h.entries, h.pool
    ensures h.Valid() && ptr != 0
    ensures var b := h.BlockOf(ptr);
      && 0 <= b < h.entries.Length && ptr == h.AddressOf(b)
      && b !in old(h.live) && h.live == old(h.live)[b := 1]
      && FreeCount(h.entries[..]) == FreeCount(old(h.entries[..])) - 1
      && !LiveBlock(old(h.live), b)
      && (forall j: nat | PAGE * b <= j < PAGE * b + size ::
            j < 4 * h.pool.Length && LoadByte(h.pool[..], j) == 0)
      && SameOutside(old(h.pool[..]), h.pool[..], {b})
  {
    hide Represents, FreeCount, Taken, Zeroed, HeapStep, LoadByte;
    SomeFree(h.entries[..]);
    assert BlocksFor(size) == 1;
    ptr := h.Kzalloc(size);
    ghost var b := h.BlockOf(ptr);
    TakenOneCount(old(h.entries[..]), b);
    TakenAddsRun(old(h.entries[..]), old(h.live), b, 1);
    ZeroedFrame(old(h.pool[..]), b, 1, size);
  }
  const HEAP_ADDRESS: Word := 0x0100_0000
  const HEAP_SIZE: Word := 104857600

  /** kheap_init: the configured addresses make an empty heap of 25600 blocks. */
  method KheapInit() returns (h: Heap)
    ensures h.Valid() && h.live == map[] && h.entries[..] == AllFree(25600)
    ensures h.saddr == 0x0100_0000
  {
    var total := HEAP_SIZE / PAGE;
    var entries := new Byte[total](_ => FREE);
    var pool := new Word[WORDS * total](_ => 0);
    var res;
    res, h := Heap.Create(HEAP_ADDRESS, HEAP_ADDRESS + HEAP_SIZE, entries, pool);
  }
}
