/** The paging routines, run on directories and tables held in the heap's pool. */
module Paging {
  import opened Bits
  import opened HeapTable
  import opened HeapRuns
  import opened KernelHeap
  import opened AddressSpace

  function Singles(blocks: set<nat>): Runs {
    map b | b in blocks :: 1
  }

  predicate Aligned(a: int) {
    a % PAGE == 0
  }

  // ---- Reading and writing one entry ----

  /** The indices of a page in the two levels; a misaligned address is refused. */
  method GetIndex(virt: Word) returns (res: int, dirIndex: Word, tableIndex: Word)
    ensures res == if Aligned(virt) then 0 else -EINVARG
    ensures Aligned(virt) ==> dirIndex < WORDS && tableIndex < WORDS
                              && PAGE * (WORDS * dirIndex + tableIndex) == virt
    ensures !Aligned(virt) ==> dirIndex == 0 && tableIndex == 0
  {
    if !Aligned(virt) {
      return -EINVARG, 0, 0;
    }
    return 0, virt / (WORDS * PAGE), (virt % (WORDS * PAGE)) / PAGE;
  }

  /** paging_get: a misaligned address reads the entry of page 0. */
  method Get(h: Heap, directory: Word, virt: Word, ghost sp: Space) returns (entry: Word)
    requires Wired(h.saddr, h.pool[..], sp) && directory == h.AddressOf(sp.dir)
    ensures entry == Flat(h.saddr, h.pool[..], sp)[if Aligned(virt) then virt / PAGE else 0]
  {
    var _, di, ti := GetIndex(virt);
    ghost var p := if Aligned(virt) then virt / PAGE else 0;
    assert p / WORDS == di && p % WORDS == ti;
    var dirWord := (directory - h.saddr) / 4 + di;
    assert dirWord == DirWord(sp, di) && InPool(h.pool.Length, sp.tables[di]);
    var table := Frame(h.pool[..][dirWord]);
    var slot := (table - h.saddr) / 4 + ti;
    assert slot == Slot(sp, p);
    entry := h.pool[slot];
  }

  /** paging_set. */
  method Set(h: Heap, directory: Word, virt: Word, value: Word, ghost sp: Space) returns (res: int)
    requires Wired(h.saddr, h.pool[..], sp) && directory == h.AddressOf(sp.dir)
    modifies h.pool
    ensures Wired(h.saddr, h.pool[..], sp)
    ensures SameOutside(old(h.pool[..]), h.pool[..], Elements(sp.tables))
    ensures res == if Aligned(virt) then 0 else -EINVARG
    ensures res != 0 ==> h.pool[..] == old(h.pool[..])
    ensures res == 0 ==> Flat(h.saddr, h.pool[..], sp)
                         == old(Flat(h.saddr, h.pool[..], sp))[virt / PAGE := value]
  {
    if !Aligned(virt) {
      return -EINVARG;
    }
    var r, di, ti := GetIndex(virt);
    ghost var p := virt / PAGE;
    assert p / WORDS == di && p % WORDS == ti;
    var dirWord := (directory - h.saddr) / 4 + di;
    assert dirWord == DirWord(sp, di) && InPool(h.pool.Length, sp.tables[di]);
    var table := Frame(h.pool[..][dirWord]);
    var slot := (table - h.saddr) / 4 + ti;
    assert slot == Slot(sp, p);
    StoreEntry(h.saddr, h.pool[..], sp, p, value);
    h.pool[slot] := value;
    assert h.pool[..] == old(h.pool[..])[slot := value];
    return 0;
  }

  // ---- Mapping ranges ----

  /** paging_map. */
  method Map(h: Heap, chunk: Word, virt: Word, phys: Word, flags: Word, ghost sp: Space)
    returns (res: int)
    requires Wired(h.saddr, h.pool[..], sp) && chunk == h.AddressOf(sp.chunk)
    modifies h.pool
    ensures Wired(h.saddr, h.pool[..], sp)
    ensures SameOutside(old(h.pool[..]), h.pool[..], Elements(sp.tables))
    ensures res == if Aligned(virt) && Aligned(phys) then 0 else -EINVARG
    ensures res != 0 ==> h.pool[..] == old(h.pool[..])
    ensures res == 0 ==> Flat(h.saddr, h.pool[..], sp)
                         == old(Flat(h.saddr, h.pool[..], sp))[virt / PAGE := Or(phys, flags)]
  {
    if !Aligned(virt) || !Aligned(phys) {
      return -EINVARG;
    }
    var directory := h.pool[(chunk - h.saddr) / 4];
    var entry := OrWord(phys, flags);
    res := Set(h, directory, virt, entry, sp);
  }

  /** The address reached after i steps of one page, in 32-bit arithmetic. */
  function Advance(a: Word, i: nat): Word {
    (a + PAGE * i) % TWO32
  }

  lemma AdvanceStep(a: Word, i: nat)
    ensures Aligned(Advance(a, i)) <==> Aligned(a)
    ensures Advance(a, i) / PAGE == (a / PAGE + i) % PAGES
    ensures Advance(a, i + 1) == (Advance(a, i) + PAGE) % TWO32
  {
    hide Aligned;
    AdvancePage(a, i);
    WrapStep(a + PAGE * i);
  }

  lemma AdvancePage(a: Word, i: nat)
    ensures Aligned(Advance(a, i)) <==> Aligned(a)
    ensures Advance(a, i) / PAGE == (a / PAGE + i) % PAGES
  {
    var vp, d := a / PAGE, a % PAGE;
    var q, r := (vp + i) / PAGES, (vp + i) % PAGES;
    DivMod(a + PAGE * i, TWO32, q, PAGE * r + d);
    DivMod(PAGE * r + d, PAGE, r, d);
  }

  lemma WrapStep(x: nat)
    ensures (x + PAGE) % TWO32 == (x % TWO32 + PAGE) % TWO32
  {
    var q, r := x / TWO32, x % TWO32;
    if r + PAGE < TWO32 {
      DivMod(x + PAGE, TWO32, q, r + PAGE);
    } else {
      DivMod(x + PAGE, TWO32, q + 1, r + PAGE - TWO32);
    }
  }

  /** One round of paging_map_range, extending a mapping of i pages to i + 1. */
  method MapOne(h: Heap, chunk: Word, v: Word, ph: Word, flags: Word, ghost sp: Space,
                ghost f: PageMap, ghost virt: Word, ghost phys: Word, ghost i: nat)
    returns (res: int)
    requires Wired(h.saddr, h.pool[..], sp) && chunk == h.AddressOf(sp.chunk)
    requires v == Advance(virt, i) && ph == phys + PAGE * i && ph + PAGE <= TWO32
    requires Flat(h.saddr, h.pool[..], sp) == Mapped(f, virt / PAGE, phys, i, flags)
    modifies h.pool
    ensures Wired(h.saddr, h.pool[..], sp)
    ensures SameOutside(old(h.pool[..]), h.pool[..], Elements(sp.tables))
    ensures res == if Aligned(virt) && Aligned(phys) then 0 else -EINVARG
    ensures res != 0 ==> h.pool[..] == old(h.pool[..])
    ensures res == 0 ==> Flat(h.saddr, h.pool[..], sp) == Mapped(f, virt / PAGE, phys, i + 1, flags)
  {
    hide Wired, Flat, SameOutside, Advance;
    AdvanceStep(virt, i);
    res := Map(h, chunk, v, ph, flags, sp);
    if res == 0 {
      MapNextPage(f, virt / PAGE, phys, i, flags, v / PAGE);
    }
  }

  /** paging_map_range. */
  method MapRange(h: Heap, chunk: Word, virt: Word, phys: Word, count: nat, flags: Word, ghost sp: Space)
    returns (res: int)
    requires Wired(h.saddr, h.pool[..], sp) && chunk == h.AddressOf(sp.chunk)
    requires phys + PAGE * count <= TWO32
    modifies h.pool
    ensures Wired(h.saddr, h.pool[..], sp)
    ensures SameOutside(old(h.pool[..]), h.pool[..], Elements(sp.tables))
    ensures res == if count == 0 || (Aligned(virt) && Aligned(phys)) then 0 else -EINVARG
    ensures res != 0 ==> h.pool[..] == old(h.pool[..])
    ensures res == 0 ==> Flat(h.saddr, h.pool[..], sp)
                         == Mapped(old(Flat(h.saddr, h.pool[..], sp)), virt / PAGE, phys, count, flags)
  {
    hide Wired, Flat, Advance;
    res := 0;
    var v, ph := virt, phys;
    ghost var f := Flat(h.saddr, h.pool[..], sp);
    NothingMapped(f, virt, phys, flags);
    for i := 0 to count
      invariant Wired(h.saddr, h.pool[..], sp) && res == 0
      invariant SameOutside(old(h.pool[..]), h.pool[..], Elements(sp.tables))
      invariant i > 0 ==> Aligned(virt) && Aligned(phys)
      invariant i == 0 ==> h.pool[..] == old(h.pool[..])
      invariant v == Advance(virt, i) && (i < count ==> ph == phys + PAGE * i)
      invariant Flat(h.saddr, h.pool[..], sp) == Mapped(f, virt / PAGE, phys, i, flags)
    {
      res := MapOne(h, chunk, v, ph, flags, sp, f, virt, phys, i);
      if res < 0 {
        return;
      }
      AdvanceStep(virt, i);
      v, ph := (v + PAGE) % TWO32, (ph + PAGE) % TWO32;
    }
  }

  lemma NothingMapped(f: PageMap, virt: Word, phys: Word, flags: Word)
    ensures Advance(virt, 0) == virt && Mapped(f, virt / PAGE, phys, 0, flags) == f
  {
  }

  /** The ranges paging_map_to accepts. */
  predicate MapToAccepts(virt: Word, phys: Word, physEnd: Word) {
    Aligned(virt) && Aligned(phys) && Aligned(physEnd) && phys <= physEnd
  }

  /** The flat map after paging_map_to. */
  ghost function MapToFlat(f: PageMap, virt: Word, phys: Word, physEnd: Word, flags: Word): PageMap {
    if MapToAccepts(virt, phys, physEnd)
    then Mapped(f, virt / PAGE, phys, (physEnd - phys) / PAGE, flags)
    else f
  }

  /** paging_map_to. */
  method MapTo(h: Heap, chunk: Word, virt: Word, phys: Word, physEnd: Word, flags: Word, ghost sp: Space)
    returns (res: int)
    requires Wired(h.saddr, h.pool[..], sp) && chunk == h.AddressOf(sp.chunk)
    modifies h.pool
    ensures Wired(h.saddr, h.pool[..], sp)
    ensures SameOutside(old(h.pool[..]), h.pool[..], Elements(sp.tables))
    ensures res == if MapToAccepts(virt, phys, physEnd) then 0 else -EINVARG
    ensures res != 0 ==> h.pool[..] == old(h.pool[..])
    ensures Flat(h.saddr, h.pool[..], sp)
            == MapToFlat(old(Flat(h.saddr, h.pool[..], sp)), virt, phys, physEnd, flags)
  {
    if !Aligned(virt) {
      return -EINVARG;
    }
    if !Aligned(phys) {
      return -EINVARG;
    }
    if !Aligned(physEnd) {
      return -EINVARG;
    }
    if physEnd < phys {
      return -EINVARG;
    }
    var totalBytes := physEnd - phys;
    var totalPages := totalBytes / PAGE;
    res := MapRange(h, chunk, virt, phys, totalPages, flags, sp);
  }

  /** An accepted mapping sends byte k of the range to byte k of the physical range, around
      the top of the address space if need be, and leaves every other page alone. */
  lemma MapToTranslates(f: PageMap, virt: Word, phys: Word, physEnd: Word, flags: Word, v: Word)
    requires MapToAccepts(virt, phys, physEnd) && flags < PAGE
    ensures var g, k := MapToFlat(f, virt, phys, physEnd, flags), (v - virt) % TWO32;
      if k < physEnd - phys then Translate(g, v) == phys + k && g[v / PAGE] % PAGE == flags
      else g[v / PAGE] == f[v / PAGE]
  {
    var k, count := (v - virt) % TWO32, (physEnd - phys) / PAGE;
    var j := Offset(v / PAGE, virt / PAGE);
    assert v == virt + k || v == virt + k - TWO32;
    assert k == PAGE * j + v % PAGE;
    assert PAGE * count == physEnd - phys;
    if j < count {
      OrFlags(phys + PAGE * j, flags);
    }
  }

  // ---- Address helpers ----

  function AlignUp(a: Word): (r: Word)
    ensures Aligned(r) && (r >= a ==> r - a < PAGE)
  {
    if a % PAGE != 0 then (a + PAGE - a % PAGE) % TWO32 else a
  }

  lemma AlignUpValue(a: Word, q: nat, s: nat)
    requires a == PAGE * q + s && s < PAGE && a <= TWO32 - PAGE
    ensures AlignUp(a) == PAGE * if s == 0 then q else q + 1
  {
    DivMod(a, PAGE, q, s);
  }

  function AlignDown(a: Word): Word {
    a - a % PAGE
  }

  /** paging_get_physical_address walks the tables to the flat map's answer. */
  method GetPhysicalAddress(h: Heap, directory: Word, virt: Word, ghost sp: Space) returns (phys: Word)
    requires Wired(h.saddr, h.pool[..], sp) && directory == h.AddressOf(sp.dir)
    ensures phys == Translate(Flat(h.saddr, h.pool[..], sp), virt)
  {
    var page := AlignDown(virt);
    var entry := Get(h, directory, page, sp);
    assert page / PAGE == virt / PAGE;
    phys := Frame(entry) + (virt - page);
  }

  // ---- Building and releasing a space ----

  ghost predicate TableFilled(mem: seq<Word>, b: nat, i: nat, flags: Word) {
    i < WORDS && InPool(|mem|, b)
    && forall w | WORDS * b <= w < WORDS * (b + 1) :: mem[w] == Or(PAGE * (WORDS * i + w - WORDS * b), flags)
  }

  ghost predicate IsDirEntry(e: Word, saddr: Word, table: nat, flags: Word) {
    saddr + PAGE * table < TWO32 && e == Or(Or(saddr + PAGE * table, flags), WRITABLE)
  }

  ghost predicate DirFilled(saddr: Word, mem: seq<Word>, dir: nat, tables: seq<nat>, flags: Word) {
    |tables| <= WORDS && InPool(|mem|, dir)
    && forall i | 0 <= i < |tables| :: IsDirEntry(mem[WORDS * dir + i], saddr, tables[i], flags)
  }

  /** The inner loop of paging_new_4gb. */
  method FillTable(h: Heap, b: nat, offset: Word, flags: Word, ghost i: nat)
    requires InPool(h.pool.Length, b) && i < WORDS && offset == PAGE * WORDS * i
    modifies h.pool
    ensures SameOutside(old(h.pool[..]), h.pool[..], {b})
    ensures TableFilled(h.pool[..], b, i, flags)
  {
    for pi := 0 to WORDS
      invariant forall w | 0 <= w < h.pool.Length ::
        h.pool[w] == if WORDS * b <= w < WORDS * b + pi
                     then Or(offset + PAGE * (w - WORDS * b), flags) else old(h.pool[w])
    {
      h.pool[WORDS * b + pi] := OrWord(offset + PAGE * pi, flags);
    }
  }

  /** Everything paging_new_4gb promises. */
  ghost predicate NewSpace(saddr: Word, live: Runs, mem: seq<Word>, flags: Word,
                           sp: Space, live': Runs, mem': seq<Word>) {
    && Shape(sp) && Blocks(sp) !! live.Keys
    && live' == live + Singles(Blocks(sp))
    && SameOutside(mem, mem', Blocks(sp))
    && Wired(saddr, mem', sp)
    && Flat(saddr, mem', sp) == Identity(flags)
    && DirFilled(saddr, mem', sp.dir, sp.tables, flags)
  }

  lemma FilledSpace(saddr: Word, mem: seq<Word>, sp: Space, flags: Word)
    requires Shape(sp) && Aligned(saddr) && flags < 0x100
    requires InPool(|mem|, sp.chunk) && mem[WORDS * sp.chunk] == saddr + PAGE * sp.dir
    requires DirFilled(saddr, mem, sp.dir, sp.tables, flags)
    requires forall i | 0 <= i < WORDS :: TableFilled(mem, sp.tables[i], i, flags)
    ensures Wired(saddr, mem, sp) && Flat(saddr, mem, sp) == Identity(flags)
  {
    hide IsOr;
    forall i | 0 <= i < WORDS
      ensures Frame(mem[DirWord(sp, i)]) == saddr + PAGE * sp.tables[i]
    {
      assert IsDirEntry(mem[DirWord(sp, i)], saddr, sp.tables[i], flags);
      OrTwoFlags(saddr + PAGE * sp.tables[i], flags, WRITABLE);
    }
    forall p | 0 <= p < PAGES
      ensures InPool(|mem|, sp.tables[p / WORDS]) && mem[Slot(sp, p)] == Or(PAGE * p, flags)
    {
      assert TableFilled(mem, sp.tables[p / WORDS], p / WORDS, flags);
    }
  }
  /** The state of paging_new_4gb after some tables: the directory and those tables
      are allocated and filled, and nothing else has changed. */
  ghost predicate Built(saddr: Word, live: Runs, mem: seq<Word>, flags: Word,
                        dir: nat, tables: seq<nat>, live': Runs, mem': seq<Word>) {
    var owned := {dir} + Elements(tables);
    && Distinct(tables) && dir !in tables
    && owned !! live.Keys && live' == live + Singles(owned)
    && SameOutside(mem, mem', owned)
    && DirFilled(saddr, mem', dir, tables, flags)
    && forall i | 0 <= i < |tables| :: TableFilled(mem', tables[i], i, flags)
  }

  lemma RemoveOne(live: Runs, gone: set<nat>, b: nat)
    ensures live - gone - {b} == live - (gone + {b})
  {
  }

  lemma SinglesGrow(live: Runs, owned: set<nat>, b: nat)
    requires b !in live && b !in owned
    ensures (live + Singles(owned))[b := 1] == live + Singles(owned + {b})
  {
  }

  lemma FilledFrame(mem: seq<Word>, mem': seq<Word>, b: nat, i: nat, flags: Word, blocks: set<nat>)
    requires TableFilled(mem, b, i, flags) && SameOutside(mem, mem', blocks) && b !in blocks
    ensures TableFilled(mem', b, i, flags)
  {
  }

  lemma DirFrame(saddr: Word, mem: seq<Word>, mem': seq<Word>, dir: nat, tables: seq<nat>, flags: Word, b: nat)
    requires DirFilled(saddr, mem, dir, tables, flags) && SameOutside(mem, mem', {b}) && dir != b
    ensures DirFilled(saddr, mem', dir, tables, flags)
  {
  }

  lemma BuiltEmpty(saddr: Word, live: Runs, mem: seq<Word>, flags: Word, dir: nat, mem1: seq<Word>)
    requires dir !in live && SameOutside(mem, mem1, {dir}) && InPool(|mem1|, dir)
    ensures Built(saddr, live, mem, flags, dir, [], live[dir := 1], mem1)
  {
  }

  lemma BuiltGrows(saddr: Word, live: Runs, mem: seq<Word>, flags: Word, dir: nat, tables: seq<nat>,
                   live1: Runs, mem1: seq<Word>, b: nat, mem2: seq<Word>, entry: Word)
    requires Built(saddr, live, mem, flags, dir, tables, live1, mem1)
    requires |tables| < WORDS && b !in live1
    requires SameOutside(mem1, mem2, {b}) && TableFilled(mem2, b, |tables|, flags)
    requires IsDirEntry(entry, saddr, b, flags)
    ensures Built(saddr, live, mem, flags, dir, tables + [b], live1[b := 1],
                  mem2[WORDS * dir + |tables| := entry])
  {
    hide TableFilled, IsDirEntry;
    var tables', w := tables + [b], WORDS * dir + |tables|;
    var mem3 := mem2[w := entry];
    var owned := {dir} + Elements(tables);
    assert forall x | x in owned :: x in live1;
    assert {dir} + Elements(tables') == owned + {b};
    SinglesGrow(live, owned, b);
    DirFrame(saddr, mem1, mem2, dir, tables, flags, b);
    assert SameOutside(mem2, mem3, {dir});
    forall i | 0 <= i < |tables'|
      ensures TableFilled(mem3, tables'[i], i, flags)
    {
      assert tables'[i] != dir;
      if i < |tables| {
        assert tables[i] in owned;
        FilledFrame(mem1, mem2, tables[i], i, flags, {b});
      }
      FilledFrame(mem2, mem3, tables'[i], i, flags, {dir});
    }
  }

  /** Allocate the i-th table and fill it with the identity entries of its 4 MB. */
  method NewTable(h: Heap, i: nat, flags: Word) returns (entry: Word)
    requires h.Valid() && FreeCount(h.entries[..]) > 0 && i < WORDS
    modifies h`live, h.entries, h.pool
    ensures h.Valid() && FreeCount(h.entries[..]) == old(FreeCount(h.entries[..])) - 1
    ensures var b := h.BlockOf(entry);
      && b >= 0 && entry == h.AddressOf(b) && b !in old(h.live) && h.live == old(h.live)[b := 1]
      && SameOutside(old(h.pool[..]), h.pool[..], {b}) && TableFilled(h.pool[..], b, i, flags)
  {
    entry := KzallocBlock(h, PAGE);
    FillTable(h, h.BlockOf(entry), PAGE * WORDS * i, flags, i);
  }

  /** Enter a table in the directory. */
  method LinkTable(h: Heap, directory: Word, i: nat, entry: Word, flags: Word, ghost dir: nat)
    returns (ghost e: Word)
    requires directory == h.AddressOf(dir) && InPool(h.pool.Length, dir) && i < WORDS
    modifies h.pool
    ensures e == Or(Or(entry, flags), WRITABLE)
    ensures h.pool[..] == old(h.pool[..])[WORDS * dir + i := e]
  {
    var tagged := OrWord(entry, flags);
    tagged := OrWord(tagged, WRITABLE);
    h.pool[(directory - h.saddr) / 4 + i] := tagged;
    e := tagged;
  }

  /** One round of the outer loop of paging_new_4gb. */
  method AddTable(h: Heap, directory: Word, i: nat, flags: Word, ghost dir: nat, ghost tables: seq<nat>,
                  ghost live: Runs, ghost mem: seq<Word>)
    returns (ghost b: nat)
    requires h.Valid() && FreeCount(h.entries[..]) > 0
    requires directory == h.AddressOf(dir) && InPool(h.pool.Length, dir) && i == |tables| < WORDS
    requires Built(h.saddr, live, mem, flags, dir, tables, h.live, h.pool[..])
    modifies h`live, h.entries, h.pool
    ensures h.Valid() && FreeCount(h.entries[..]) == old(FreeCount(h.entries[..])) - 1
    ensures Built(h.saddr, live, mem, flags, dir, tables + [b], h.live, h.pool[..])
  {
    hide Built, Represents, TableFilled;
    var entry := NewTable(h, i, flags);
    b := h.BlockOf(entry);
    ghost var mem2 := h.pool[..];
    ghost var e := LinkTable(h, directory, i, entry, flags, dir);
    BuiltGrows(h.saddr, live, mem, flags, dir, tables, old(h.live), old(h.pool[..]), b, mem2, e);
  }

  lemma BuiltIsSpace(saddr: Word, live: Runs, mem: seq<Word>, flags: Word, dir: nat, tables: seq<nat>,
                     live1: Runs, mem1: seq<Word>, b: nat, mem2: seq<Word>, directory: Word)
    requires Aligned(saddr) && flags < 0x100 && directory == saddr + PAGE * dir
    requires Built(saddr, live, mem, flags, dir, tables, live1, mem1) && |tables| == WORDS
    requires b !in live1 && SameOutside(mem1, mem2, {b}) && InPool(|mem2|, b)
    ensures NewSpace(saddr, live, mem, flags, Space(b, dir, tables), live1[b := 1],
                     mem2[WORDS * b := directory])
  {
    hide TableFilled, IsDirEntry, DirFilled, Wired, Flat;
    var mem3, sp := mem2[WORDS * b := directory], Space(b, dir, tables);
    var owned := {dir} + Elements(tables);
    assert forall x | x in owned :: x in live1;
    assert Blocks(sp) == owned + {b};
    SinglesGrow(live, owned, b);
    assert SameOutside(mem1, mem3, {b});
    DirFrame(saddr, mem1, mem3, dir, tables, flags, b);
    forall i | 0 <= i < WORDS
      ensures TableFilled(mem3, tables[i], i, flags)
    {
      assert tables[i] in owned;
      FilledFrame(mem1, mem3, tables[i], i, flags, {b});
    }
    FilledSpace(saddr, mem3, sp, flags);
  }

  /** paging_new_4gb: 1026 blocks become an address space that maps every page to itself. */
  method New4Gb(h: Heap, flags: Word) returns (chunk: Word, ghost sp: Space)
    requires h.Valid() && flags < 0x100 && FreeCount(h.entries[..]) >= WORDS + 2
    modifies h`live, h.entries, h.pool
    ensures h.Valid() && chunk == h.AddressOf(sp.chunk)
    ensures NewSpace(h.saddr, old(h.live), old(h.pool[..]), flags, sp, h.live, h.pool[..])
    ensures FreeCount(h.entries[..]) == old(FreeCount(h.entries[..])) - WORDS - 2
  {
    hide Built, Represents, NewSpace, FreeCount;
    var directory := KzallocBlock(h, PAGE);
    ghost var dir := h.BlockOf(directory);
    ghost var tables: seq<nat> := [];
    BuiltEmpty(h.saddr, old(h.live), old(h.pool[..]), flags, dir, h.pool[..]);
    for i := 0 to WORDS
      invariant h.Valid() && |tables| == i
      invariant FreeCount(h.entries[..]) == old(FreeCount(h.entries[..])) - 1 - i
      invariant Built(h.saddr, old(h.live), old(h.pool[..]), flags, dir, tables, h.live, h.pool[..])
    {
      ghost var b := AddTable(h, directory, i, flags, dir, tables, old(h.live), old(h.pool[..]));
      tables := tables + [b];
    }
    ghost var live1, mem1 := h.live, h.pool[..];
    chunk := KzallocBlock(h, 4);
    var block := h.BlockOf(chunk);
    sp := Space(block, dir, tables);
    ghost var mem2 := h.pool[..];
    BuiltIsSpace(h.saddr, old(h.live), old(h.pool[..]), flags, dir, tables, live1, mem1, block, mem2, directory);
    h.pool[WORDS * block] := directory;
    assert h.pool[..] == mem2[WORDS * block := directory];
  }

  /** One round of paging_free_4gb: masking the directory entry recovers the table. */
  method FreeTable(h: Heap, directory: Word, i: nat, ghost sp: Space)
    requires h.Valid() && Wired(h.saddr, h.pool[..], sp) && directory == h.AddressOf(sp.dir)
    requires i < WORDS && sp.tables[i] in h.live
    modifies h`live, h.entries
    ensures h.Valid() && h.live == old(h.live) - {sp.tables[i]}
  {
    var w := (directory - h.saddr) / 4 + i;
    assert w == DirWord(sp, i);
    h.Free(Frame(h.pool[..][w]));
  }

  /** Every directory entry of a new space is writable and carries the space's flags, so the
      page tables alone decide what a page allows. */
  lemma NewDirectoryDigits(saddr: Word, live: Runs, mem: seq<Word>, flags: Word,
                           sp: Space, live': Runs, mem': seq<Word>, i: nat)
    requires NewSpace(saddr, live, mem, flags, sp, live', mem') && i < WORDS
    ensures Bit(mem'[DirWord(sp, i)], 1)
    ensures forall k: nat | Bit(flags, k) :: Bit(mem'[DirWord(sp, i)], k)
  {
    hide Wired, Flat, Identity, Bit;
    FlagValues();
    assert IsDirEntry(mem'[DirWord(sp, i)], saddr, sp.tables[i], flags);
  }

  /** paging_free_4gb: every block of the space is given back, and nothing else changes. */
  method Free4Gb(h: Heap, chunk: Word, ghost sp: Space)
    requires h.Valid() && Wired(h.saddr, h.pool[..], sp) && Owned(h.live, sp)
    requires chunk == h.AddressOf(sp.chunk)
    modifies h`live, h.entries
    ensures h.Valid() && h.live == old(h.live) - Blocks(sp)
  {
    hide Represents, Freed, HeapStep;
    var directory := h.pool[(chunk - h.saddr) / 4];
    ghost var tables := sp.tables;
    for i := 0 to WORDS
      invariant h.Valid() && h.live == old(h.live) - Elements(tables[..i])
    {
      assert tables[i] in Blocks(sp) && tables[i] !in tables[..i];
      assert Elements(tables[..i + 1]) == Elements(tables[..i]) + {tables[i]};
      RemoveOne(old(h.live), Elements(tables[..i]), tables[i]);
      FreeTable(h, directory, i, sp);
    }
    assert tables[..WORDS] == tables;
    FreePair(h, directory, chunk, sp.dir, sp.chunk);
    RemoveOne(old(h.live), Elements(tables), sp.dir);
    RemoveOne(old(h.live), Elements(tables) + {sp.dir}, sp.chunk);
    assert Elements(tables) + {sp.dir} + {sp.chunk} == Blocks(sp);
  }

  method FreePair(h: Heap, p: Word, q: Word, ghost a: nat, ghost b: nat)
    requires h.Valid() && p == h.AddressOf(a) && q == h.AddressOf(b)
    requires a in h.live && b in h.live && a != b
    modifies h`live, h.entries
    ensures h.Valid() && h.live == old(h.live) - {a} - {b}
  {
    h.Free(p);
    h.Free(q);
  }
}
