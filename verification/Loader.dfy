/** Loading a program: ELF segments or a flat image, and the stack, mapped into a
    task's address space. */
module Loader {
  import opened Bits
  import opened KernelHeap
  import opened HeapRuns
  import opened AddressSpace
  import opened Paging

  const PROGRAM_ADDRESS: Word := 0x40_0000
  const STACK_SIZE: Word := 0x4000
  const STACK_ADDRESS: Word := 0x3f_f000 - 0x4000

  /** An ELF program header; the offset is a signed 32-bit field. */
  datatype Phdr = Phdr(ptype: Word, offset: int, vaddr: Word, filesz: Word, memsz: Word, flags: Word)

  predicate PfW(ph: Phdr) {
    (ph.flags / 2) % 2 == 1
  }

  // ---- One segment ----

  /** elf_phdr_phys_address, in 32-bit arithmetic. */
  function PhysOf(memory: Word, ph: Phdr): Word {
    (memory + ph.offset) % TWO32
  }

  function SegEnd(memory: Word, ph: Phdr): Word {
    AlignUp((PhysOf(memory, ph) + ph.memsz) % TWO32)
  }

  predicate SegAccepted(memory: Word, ph: Phdr) {
    AlignDown(PhysOf(memory, ph)) <= SegEnd(memory, ph)
  }

  function SegPages(memory: Word, ph: Phdr): nat {
    if SegAccepted(memory, ph) then (SegEnd(memory, ph) - AlignDown(PhysOf(memory, ph))) / PAGE else 0
  }

  /** Present and user, and writable exactly when PF_W, digit 1 of the header's flags, is set. */
  function SegFlags(ph: Phdr): (r: Word)
    ensures r < 8 && Bit(r, 0) && Bit(r, 2) && (Bit(r, 1) <==> Bit(ph.flags, 1))
  {
    FlagValues();
    assert Bit(ph.flags, 1) <==> ph.flags / 2 % 2 == 1;
    if PfW(ph) then READ_WRITE else READ_ONLY
  }

  ghost function SegFlat(f: PageMap, memory: Word, ph: Phdr): PageMap {
    MapToFlat(f, AlignDown(ph.vaddr), AlignDown(PhysOf(memory, ph)), SegEnd(memory, ph), SegFlags(ph))
  }

  /** The segment's mapping reaches page p. */
  predicate SegCovers(memory: Word, ph: Phdr, p: int) {
    Offset(p, ph.vaddr / PAGE) < SegPages(memory, ph)
  }

  ghost function SegEntry(memory: Word, ph: Phdr, p: int): Word
    requires SegCovers(memory, ph, p)
  {
    Or(AlignDown(PhysOf(memory, ph)) + PAGE * Offset(p, ph.vaddr / PAGE), SegFlags(ph))
  }

  lemma SegFlatPage(f: PageMap, memory: Word, ph: Phdr, p: nat)
    requires SegAccepted(memory, ph) && p < PAGES
    ensures SegFlat(f, memory, ph)[p]
            == if SegCovers(memory, ph, p) then SegEntry(memory, ph, p) else f[p]
  {
    var v := AlignDown(ph.vaddr);
    assert v / PAGE == ph.vaddr / PAGE && v % PAGE == 0;
  }

  // ---- All segments ----

  /** The address space after the first n segments. */
  ghost function ElfFlat(f: PageMap, memory: Word, phdrs: seq<Phdr>, n: nat): PageMap
    requires n <= |phdrs|
  {
    if n == 0 then f else SegFlat(ElfFlat(f, memory, phdrs, n - 1), memory, phdrs[n - 1])
  }

  /** The last of the first n headers whose mapping reaches page p, or -1. */
  function LastCover(memory: Word, phdrs: seq<Phdr>, n: nat, p: int): (i: int)
    requires n <= |phdrs|
    ensures -1 <= i < n
    ensures i >= 0 ==> SegCovers(memory, phdrs[i], p)
    ensures forall j | i < j < n :: !SegCovers(memory, phdrs[j], p)
  {
    if n == 0 then -1
    else if SegCovers(memory, phdrs[n - 1], p) then n - 1
    else LastCover(memory, phdrs, n - 1, p)
  }

  ghost predicate AllAccepted(memory: Word, phdrs: seq<Phdr>, n: nat) {
    n <= |phdrs| && forall i | 0 <= i < n :: SegAccepted(memory, phdrs[i])
  }

  /** Every page ends with the entry of the last segment that reaches it, or unchanged. */
  lemma {:induction false} ElfFlatPage(f: PageMap, memory: Word, phdrs: seq<Phdr>, n: nat, p: nat)
    requires AllAccepted(memory, phdrs, n) && p < PAGES
    ensures var i := LastCover(memory, phdrs, n, p);
      ElfFlat(f, memory, phdrs, n)[p] == if i < 0 then f[p] else SegEntry(memory, phdrs[i], p)
  {
    hide SegFlat, SegCovers, SegEntry, SegAccepted;
    if n > 0 {
      ElfFlatPage(f, memory, phdrs, n - 1, p);
      SegFlatPage(ElfFlat(f, memory, phdrs, n - 1), memory, phdrs[n - 1], p);
    }
  }

  /** A segment as the System V ABI lays it out: congruent to its file offset modulo the
      page size, with no sum that overflows. */
  predicate WellPlaced(memory: Word, ph: Phdr) {
    && ph.vaddr % PAGE == ph.offset % PAGE
    && 0 <= memory + ph.offset && memory + ph.offset + ph.memsz <= TWO32 - PAGE
    && ph.vaddr + ph.memsz <= TWO32
  }

  /** The pages that hold a byte of [vaddr, vaddr + memsz), and the page of vaddr when it
      is not aligned. */
  predicate OnPage(ph: Phdr, p: int) {
    ph.vaddr / PAGE <= p < (ph.vaddr + ph.memsz + PAGE - 1) / PAGE
  }

  /** The last page of a range, from where the range starts in its first page. */
  lemma RoundedPages(vaddr: Word, memsz: Word, pages: nat)
    requires var n := vaddr % PAGE + memsz; pages == if n % PAGE == 0 then n / PAGE else n / PAGE + 1
    ensures (vaddr + memsz + PAGE - 1) / PAGE == vaddr / PAGE + pages
  {
    var q, n := vaddr / PAGE, vaddr % PAGE + memsz;
    if n % PAGE == 0 {
      DivMod(vaddr + memsz + PAGE - 1, PAGE, q + pages, PAGE - 1);
    } else {
      DivMod(vaddr + memsz + PAGE - 1, PAGE, q + pages, n % PAGE - 1);
    }
  }

  lemma WellPlacedPages(memory: Word, ph: Phdr) returns (pages: nat)
    requires memory % PAGE == 0 && WellPlaced(memory, ph)
    ensures SegAccepted(memory, ph) && SegPages(memory, ph) == pages
    ensures (ph.vaddr + ph.memsz + PAGE - 1) / PAGE == ph.vaddr / PAGE + pages
  {
    hide AlignUp;
    var pa, r := memory + ph.offset, ph.vaddr % PAGE;
    var low := memory / PAGE + ph.offset / PAGE;
    DivMod(pa, PAGE, low, r);
    DivMod(pa, TWO32, 0, pa);
    DivMod(pa + ph.memsz, TWO32, 0, pa + ph.memsz);
    var q, s := (r + ph.memsz) / PAGE, (r + ph.memsz) % PAGE;
    pages := if s == 0 then q else q + 1;
    AlignUpValue(pa + ph.memsz, low + q, s);
    DivMod(PAGE * (low + pages) - PAGE * low, PAGE, pages, 0);
    RoundedPages(ph.vaddr, ph.memsz, pages);
  }

  lemma WellPlacedSegment(memory: Word, ph: Phdr, p: nat)
    requires memory % PAGE == 0 && WellPlaced(memory, ph) && p < PAGES
    ensures SegAccepted(memory, ph) && (SegCovers(memory, ph, p) <==> OnPage(ph, p))
    ensures PhysOf(memory, ph) == memory + ph.offset && PhysOf(memory, ph) % PAGE == ph.vaddr % PAGE
  {
    hide SegAccepted, SegPages;
    var pages := WellPlacedPages(memory, ph);
    var vp := ph.vaddr / PAGE;
    assert Offset(p, vp) == if p >= vp then p - vp else p - vp + PAGES;
  }

  lemma InSegmentOnPage(ph: Phdr, v: Word)
    requires ph.vaddr <= v < ph.vaddr + ph.memsz
    ensures OnPage(ph, v / PAGE)
  {
  }

  /** Whatever the segment, a covered address reaches its own byte of the file exactly when
      the address and its place in memory agree modulo the page size. */
  lemma SegTranslatesIff(memory: Word, ph: Phdr, f: PageMap, v: Word)
    requires SegCovers(memory, ph, v / PAGE) && f[v / PAGE] == SegEntry(memory, ph, v / PAGE)
    requires ph.vaddr <= v
    ensures Translate(f, v) == PhysOf(memory, ph) + (v - ph.vaddr)
            <==> ph.vaddr % PAGE == PhysOf(memory, ph) % PAGE
    ensures f[v / PAGE] % PAGE == SegFlags(ph)
  {
    var j := Offset(v / PAGE, ph.vaddr / PAGE);
    OrFlags(AlignDown(PhysOf(memory, ph)) + PAGE * j, SegFlags(ph));
    assert j == v / PAGE - ph.vaddr / PAGE;
  }

  ghost predicate PageDisjoint(phdrs: seq<Phdr>) {
    forall i, j, p | 0 <= i < j < |phdrs| && OnPage(phdrs[i], p) :: !OnPage(phdrs[j], p)
  }

  /** An ELF image with page-disjoint, well-placed segments: every address of a segment
      reaches its byte of the file, its page is writable exactly when the segment is, and
      every other page is as before. */
  lemma ElfLoads(f: PageMap, memory: Word, phdrs: seq<Phdr>, v: Word)
    requires memory % PAGE == 0 && PageDisjoint(phdrs)
    requires forall i | 0 <= i < |phdrs| :: WellPlaced(memory, phdrs[i])
    ensures AllAccepted(memory, phdrs, |phdrs|)
    ensures var g := ElfFlat(f, memory, phdrs, |phdrs|);
      && (forall i | 0 <= i < |phdrs| && phdrs[i].vaddr <= v < phdrs[i].vaddr + phdrs[i].memsz ::
            && Translate(g, v) == memory + phdrs[i].offset + (v - phdrs[i].vaddr)
            && Bit(g[v / PAGE], 0) && Bit(g[v / PAGE], 2)
            && (Bit(g[v / PAGE], 1) <==> Bit(phdrs[i].flags, 1)))
      && ((forall i | 0 <= i < |phdrs| :: !OnPage(phdrs[i], v / PAGE)) ==> g[v / PAGE] == f[v / PAGE])
  {
    hide SegEntry, SegCovers, SegAccepted, ElfFlat, Translate, SegFlags, OnPage, WellPlaced, PhysOf;
    var p, n := v / PAGE, |phdrs|;
    var g := ElfFlat(f, memory, phdrs, n);
    forall i | 0 <= i < n
      ensures SegAccepted(memory, phdrs[i]) && (SegCovers(memory, phdrs[i], p) <==> OnPage(phdrs[i], p))
      ensures PhysOf(memory, phdrs[i]) == memory + phdrs[i].offset
      ensures PhysOf(memory, phdrs[i]) % PAGE == phdrs[i].vaddr % PAGE
    {
      WellPlacedSegment(memory, phdrs[i], p);
    }
    ElfFlatPage(f, memory, phdrs, n, p);
    forall i | 0 <= i < n && phdrs[i].vaddr <= v < phdrs[i].vaddr + phdrs[i].memsz
      ensures Translate(g, v) == memory + phdrs[i].offset + (v - phdrs[i].vaddr)
      ensures Bit(g[p], 0) && Bit(g[p], 2) && (Bit(g[p], 1) <==> Bit(phdrs[i].flags, 1))
    {
      InSegmentOnPage(phdrs[i], v);
      assert LastCover(memory, phdrs, n, p) == i;
      SegTranslatesIff(memory, phdrs[i], g, v);
      FlagDigits(g[p], SegFlags(phdrs[i]));
    }
  }

  /** The entry a segment gives its pages: present, user, and writable iff PF_W is set. */
  lemma SegEntryDigits(memory: Word, ph: Phdr, p: int)
    requires SegCovers(memory, ph, p)
    ensures var e := SegEntry(memory, ph, p);
      Bit(e, 0) && Bit(e, 2) && (Bit(e, 1) <==> Bit(ph.flags, 1))
  {
    hide SegFlags;
    OrFlags(AlignDown(PhysOf(memory, ph)) + PAGE * Offset(p, ph.vaddr / PAGE), SegFlags(ph));
    FlagDigits(SegEntry(memory, ph, p), SegFlags(ph));
  }

  /** Every page of the segment, on any page map. */
  lemma SegFlatDigits(f: PageMap, memory: Word, ph: Phdr)
    requires SegAccepted(memory, ph)
    ensures forall p: nat | p < PAGES && SegCovers(memory, ph, p) ::
      var e := SegFlat(f, memory, ph)[p];
      Bit(e, 0) && Bit(e, 2) && (Bit(e, 1) <==> Bit(ph.flags, 1))
  {
    hide SegFlat, SegCovers, SegEntry, SegAccepted, Bit;
    forall p: nat | p < PAGES && SegCovers(memory, ph, p)
      ensures var e := SegFlat(f, memory, ph)[p];
        Bit(e, 0) && Bit(e, 2) && (Bit(e, 1) <==> Bit(ph.flags, 1))
    {
      SegFlatPage(f, memory, ph, p);
      SegEntryDigits(memory, ph, p);
    }
  }

  /** The same for every page that some segment reaches, after any number of segments. */
  lemma ElfFlatDigits(f: PageMap, memory: Word, phdrs: seq<Phdr>, n: nat)
    requires AllAccepted(memory, phdrs, n)
    ensures forall p: nat | p < PAGES && LastCover(memory, phdrs, n, p) >= 0 ::
      var e, ph := ElfFlat(f, memory, phdrs, n)[p], phdrs[LastCover(memory, phdrs, n, p)];
      Bit(e, 0) && Bit(e, 2) && (Bit(e, 1) <==> Bit(ph.flags, 1))
  {
    hide ElfFlat, SegCovers, SegEntry, SegAccepted, Bit;
    forall p: nat | p < PAGES && LastCover(memory, phdrs, n, p) >= 0
      ensures var e, ph := ElfFlat(f, memory, phdrs, n)[p], phdrs[LastCover(memory, phdrs, n, p)];
        Bit(e, 0) && Bit(e, 2) && (Bit(e, 1) <==> Bit(ph.flags, 1))
    {
      ElfFlatPage(f, memory, phdrs, n, p);
      SegEntryDigits(memory, phdrs[LastCover(memory, phdrs, n, p)], p);
    }
  }
  // ---- The routines ----

  datatype Program = Elf(memory: Word, phdrs: seq<Phdr>) | Binary(ptr: Word, size: Word)

  /** The mapping call of one header. */
  method MapHeader(h: Heap, chunk: Word, memory: Word, phdr: Phdr, ghost sp: Space) returns (res: int)
    requires Wired(h.saddr, h.pool[..], sp) && chunk == h.AddressOf(sp.chunk)
    modifies h.pool
    ensures Wired(h.saddr, h.pool[..], sp)
    ensures SameOutside(old(h.pool[..]), h.pool[..], Elements(sp.tables))
    ensures res == if SegAccepted(memory, phdr) then 0 else -EINVARG
    ensures res != 0 ==> h.pool[..] == old(h.pool[..])
    ensures res == 0 ==> Flat(h.saddr, h.pool[..], sp) == SegFlat(old(Flat(h.saddr, h.pool[..], sp)), memory, phdr)
  {
    hide Wired, Flat, MapToFlat, SameOutside, Bit, SegCovers;
    var phys := PhysOf(memory, phdr);
    var flags := READ_ONLY;
    if PfW(phdr) {
      flags := READ_WRITE;
    }
    res := MapTo(h, chunk, AlignDown(phdr.vaddr), AlignDown(phys),
                 AlignUp((phys + phdr.memsz) % TWO32), flags, sp);
  }

  /** One round of process_map_elf. */
  method MapSegment(h: Heap, chunk: Word, memory: Word, phdr: Phdr, ghost sp: Space) returns (res: int)
    requires Wired(h.saddr, h.pool[..], sp) && chunk == h.AddressOf(sp.chunk)
    modifies h.pool
    ensures Wired(h.saddr, h.pool[..], sp)
    ensures SameOutside(old(h.pool[..]), h.pool[..], Elements(sp.tables))
    ensures res == if SegAccepted(memory, phdr) then 0 else -EINVARG
    ensures res != 0 ==> h.pool[..] == old(h.pool[..])
    ensures res == 0 ==> Flat(h.saddr, h.pool[..], sp) == SegFlat(old(Flat(h.saddr, h.pool[..], sp)), memory, phdr)
    ensures res == 0 ==> forall p: nat | p < PAGES && SegCovers(memory, phdr, p) ::
      var e := Flat(h.saddr, h.pool[..], sp)[p];
      Bit(e, 0) && Bit(e, 2) && (Bit(e, 1) <==> Bit(phdr.flags, 1))
  {
    hide Wired, Flat, SegFlat, SegAccepted, SameOutside, Bit, SegCovers;
    ghost var f := Flat(h.saddr, h.pool[..], sp);
    res := MapHeader(h, chunk, memory, phdr, sp);
    if res == 0 {
      SegFlatDigits(f, memory, phdr);
    }
  }

  /** process_map_elf; `done` is the number of headers mapped. */
  method MapElf(h: Heap, chunk: Word, memory: Word, phdrs: seq<Phdr>, ghost sp: Space)
    returns (res: int, ghost done: nat)
    requires Wired(h.saddr, h.pool[..], sp) && chunk == h.AddressOf(sp.chunk)
    modifies h.pool
    ensures Wired(h.saddr, h.pool[..], sp)
    ensures SameOutside(old(h.pool[..]), h.pool[..], Elements(sp.tables))
    ensures AllAccepted(memory, phdrs, done)
    ensures res == if done == |phdrs| then 0 else -EINVARG
    ensures done < |phdrs| ==> !SegAccepted(memory, phdrs[done])
    ensures Flat(h.saddr, h.pool[..], sp) == ElfFlat(old(Flat(h.saddr, h.pool[..], sp)), memory, phdrs, done)
    ensures forall p: nat | p < PAGES && LastCover(memory, phdrs, done, p) >= 0 ::
      var e, ph := Flat(h.saddr, h.pool[..], sp)[p], phdrs[LastCover(memory, phdrs, done, p)];
      Bit(e, 0) && Bit(e, 2) && (Bit(e, 1) <==> Bit(ph.flags, 1))
  {
    hide Wired, Flat, SegFlat, SegAccepted, Bit, LastCover;
    res, done := 0, 0;
    ghost var f := Flat(h.saddr, h.pool[..], sp);
    for i := 0 to |phdrs|
      invariant Wired(h.saddr, h.pool[..], sp) && res == 0 && done == i
      invariant SameOutside(old(h.pool[..]), h.pool[..], Elements(sp.tables))
      invariant AllAccepted(memory, phdrs, i)
      invariant Flat(h.saddr, h.pool[..], sp) == ElfFlat(f, memory, phdrs, i)
    {
      res := MapSegment(h, chunk, memory, phdrs[i], sp);
      if res < 0 {
        ElfFlatDigits(f, memory, phdrs, done);
        return;
      }
      done := i + 1;
    }
    ElfFlatDigits(f, memory, phdrs, done);
  }

  ghost function BinaryFlat(f: PageMap, ptr: Word, size: Word): PageMap {
    MapToFlat(f, PROGRAM_ADDRESS, ptr, AlignUp((ptr + size) % TWO32), READ_WRITE)
  }

  ghost function StackFlat(f: PageMap, stack: Word): PageMap {
    MapToFlat(f, STACK_ADDRESS, stack, AlignUp((stack + STACK_SIZE) % TWO32), READ_WRITE)
  }

  /** process_map_memory. A flat image's mapping result is not looked at. */
  method MapMemory(h: Heap, chunk: Word, program: Program, stack: Word, ghost sp: Space)
    returns (res: int)
    requires Wired(h.saddr, h.pool[..], sp) && chunk == h.AddressOf(sp.chunk)
    modifies h.pool
    ensures Wired(h.saddr, h.pool[..], sp)
    ensures SameOutside(old(h.pool[..]), h.pool[..], Elements(sp.tables))
    ensures var f, g := old(Flat(h.saddr, h.pool[..], sp)), Flat(h.saddr, h.pool[..], sp);
      match program
      case Binary(ptr, size) =>
        res == 0 && g == StackFlat(BinaryFlat(f, ptr, size), stack)
      case Elf(memory, phdrs) =>
        if AllAccepted(memory, phdrs, |phdrs|)
        then res == 0 && g == StackFlat(ElfFlat(f, memory, phdrs, |phdrs|), stack)
        else res == -EINVARG
             && exists k: nat | AllAccepted(memory, phdrs, k) && k < |phdrs| ::
                  !SegAccepted(memory, phdrs[k]) && g == ElfFlat(f, memory, phdrs, k)
  {
    hide Wired, Flat, MapToFlat, ElfFlat;
    match program {
      case Elf(memory, phdrs) =>
        ghost var done: nat;
        res, done := MapElf(h, chunk, memory, phdrs, sp);
      case Binary(ptr, size) =>
        var _ := MapTo(h, chunk, PROGRAM_ADDRESS, ptr, AlignUp((ptr + size) % TWO32), READ_WRITE, sp);
        res := 0;
    }
    if res < 0 {
      return;
    }
    var _ := MapTo(h, chunk, STACK_ADDRESS, stack, AlignUp((stack + STACK_SIZE) % TWO32), READ_WRITE, sp);
  }

  lemma MapToPage(f: PageMap, virt: Word, phys: Word, size: Word, flags: Word, p: nat)
    requires virt % PAGE == 0 && phys % PAGE == 0 && p < PAGES && flags < PAGE
    requires phys + size <= TWO32 - PAGE && virt + size <= TWO32
    ensures var g := MapToFlat(f, virt, phys, AlignUp(phys + size), flags);
      if virt / PAGE <= p < (virt + size + PAGE - 1) / PAGE
      then g[p] == phys + PAGE * (p - virt / PAGE) + flags
      else g[p] == f[p]
  {
    var q, r, vp := size / PAGE, size % PAGE, virt / PAGE;
    hide AlignUp;
    var pages := if r == 0 then q else q + 1;
    AlignUpValue(phys + size, phys / PAGE + q, r);
    assert AlignUp(phys + size) == phys + PAGE * pages;
    assert (virt + size + PAGE - 1) / PAGE == vp + pages;
    assert Offset(p, vp) == if p >= vp then p - vp else p - vp + PAGES;
    if vp <= p < vp + pages {
      OrFlags(phys + PAGE * (p - vp), flags);
    }
  }

  lemma PageReads(g: PageMap, v: Word, frame: Word, flags: Word)
    requires frame % PAGE == 0 && flags < PAGE && g[v / PAGE] == frame + flags
    ensures Translate(g, v) == frame + v % PAGE
    ensures Bit(g[v / PAGE], 0) <==> Bit(flags, 0)
    ensures Bit(g[v / PAGE], 1) <==> Bit(flags, 1)
    ensures Bit(g[v / PAGE], 2) <==> Bit(flags, 2)
  {
    FlagDigits(g[v / PAGE], flags);
  }

  lemma BinaryPage(f: PageMap, ptr: Word, size: Word, p: nat)
    requires ptr % PAGE == 0 && ptr + size <= TWO32 - PAGE && PROGRAM_ADDRESS + size <= TWO32 && p < PAGES
    ensures BinaryFlat(f, ptr, size)[p]
            == if 0x400 <= p < (PROGRAM_ADDRESS + size + PAGE - 1) / PAGE then ptr + PAGE * (p - 0x400) + READ_WRITE
               else f[p]
  {
    hide MapToFlat, AlignUp;
    MapToPage(f, PROGRAM_ADDRESS, ptr, size, READ_WRITE, p);
  }

  lemma StackPage(f: PageMap, stack: Word, p: nat)
    requires stack % PAGE == 0 && stack + STACK_SIZE <= TWO32 - PAGE && p < PAGES
    ensures StackFlat(f, stack)[p]
            == if 0x3fb <= p < 0x3ff then stack + PAGE * (p - 0x3fb) + READ_WRITE else f[p]
  {
    hide MapToFlat, AlignUp;
    MapToPage(f, STACK_ADDRESS, stack, STACK_SIZE, READ_WRITE, p);
  }

  /** A flat image in a fresh task: program bytes and stack bytes reach their memory at the
      same time, and every other page still maps to itself. */
  lemma BinaryLoads(ptr: Word, size: Word, stack: Word, v: Word)
    requires ptr % PAGE == 0 && stack % PAGE == 0
    requires ptr + size <= TWO32 - PAGE && stack + STACK_SIZE <= TWO32 - PAGE
    requires PROGRAM_ADDRESS + size <= TWO32
    ensures var g := StackFlat(BinaryFlat(Identity(READ_ONLY), ptr, size), stack);
      && (PROGRAM_ADDRESS <= v < PROGRAM_ADDRESS + size
          ==> Translate(g, v) == ptr + (v - PROGRAM_ADDRESS)
              && Bit(g[v / PAGE], 0) && Bit(g[v / PAGE], 1) && Bit(g[v / PAGE], 2))
      && (STACK_ADDRESS <= v < STACK_ADDRESS + STACK_SIZE
          ==> Translate(g, v) == stack + (v - STACK_ADDRESS)
              && Bit(g[v / PAGE], 0) && Bit(g[v / PAGE], 1) && Bit(g[v / PAGE], 2))
      && (v < STACK_ADDRESS || STACK_ADDRESS + STACK_SIZE <= v < PROGRAM_ADDRESS
          || v / PAGE >= (PROGRAM_ADDRESS + size + PAGE - 1) / PAGE
          ==> Translate(g, v) == v
              && Bit(g[v / PAGE], 0) && !Bit(g[v / PAGE], 1) && Bit(g[v / PAGE], 2))
  {
    hide BinaryFlat, StackFlat, Translate, Identity, Bit;
    FlagValues();
    var f, p := Identity(READ_ONLY), v / PAGE;
    var g := StackFlat(BinaryFlat(f, ptr, size), stack);
    BinaryPage(f, ptr, size, p);
    StackPage(BinaryFlat(f, ptr, size), stack, p);
    if PROGRAM_ADDRESS <= v < PROGRAM_ADDRESS + size {
      PageReads(g, v, ptr + PAGE * (p - 0x400), READ_WRITE);
    } else if STACK_ADDRESS <= v < STACK_ADDRESS + STACK_SIZE {
      PageReads(g, v, stack + PAGE * (p - 0x3fb), READ_WRITE);
    } else if g[p] == f[p] {
      IdentityPage(READ_ONLY, p);
      PageReads(g, v, PAGE * p, READ_ONLY);
    }
  }

  lemma IdentityPage(flags: Word, p: nat)
    requires flags < PAGE && p < PAGES
    ensures Identity(flags)[p] == PAGE * p + flags
  {
    OrFlags(PAGE * p, flags);
  }

  /** An ELF image and its stack: segments that keep off the stack's pages load as they
      would alone, and the stack's bytes reach its memory. */
  lemma ElfMemoryLoads(f: PageMap, memory: Word, phdrs: seq<Phdr>, stack: Word, v: Word)
    requires memory % PAGE == 0 && PageDisjoint(phdrs)
    requires forall i | 0 <= i < |phdrs| :: WellPlaced(memory, phdrs[i])
    requires forall i, p | 0 <= i < |phdrs| && OnPage(phdrs[i], p) ::
      !(STACK_ADDRESS / PAGE <= p < (STACK_ADDRESS + STACK_SIZE) / PAGE)
    requires stack % PAGE == 0 && stack + STACK_SIZE <= TWO32 - PAGE
    ensures AllAccepted(memory, phdrs, |phdrs|)
    ensures var g := StackFlat(ElfFlat(f, memory, phdrs, |phdrs|), stack);
      && (forall i | 0 <= i < |phdrs| && phdrs[i].vaddr <= v < phdrs[i].vaddr + phdrs[i].memsz ::
            && Translate(g, v) == memory + phdrs[i].offset + (v - phdrs[i].vaddr)
            && Bit(g[v / PAGE], 0) && Bit(g[v / PAGE], 2)
            && (Bit(g[v / PAGE], 1) <==> Bit(phdrs[i].flags, 1)))
      && (STACK_ADDRESS <= v < STACK_ADDRESS + STACK_SIZE
          ==> Translate(g, v) == stack + (v - STACK_ADDRESS))
  {
    hide StackFlat, ElfFlat, AllAccepted, WellPlaced, Bit;
    var e, p := ElfFlat(f, memory, phdrs, |phdrs|), v / PAGE;
    ElfLoads(f, memory, phdrs, v);
    StackPage(e, stack, p);
    forall i | 0 <= i < |phdrs| && phdrs[i].vaddr <= v < phdrs[i].vaddr + phdrs[i].memsz
      ensures !(STACK_ADDRESS / PAGE <= p < (STACK_ADDRESS + STACK_SIZE) / PAGE)
    {
      assert OnPage(phdrs[i], p);
    }
  }
}
