/** A 4 GB address space: one directory and 1024 tables in heap blocks, and the flat
    map from page numbers to page entries that the two levels stand for. */
module AddressSpace {
  import opened Bits
  import opened HeapTable
  import opened HeapRuns
  import opened KernelHeap

  const PAGES: int := 0x10_0000
  const PRESENT: Word := 1
  const WRITABLE: Word := 2
  const USER: Word := 4
  const READ_ONLY: Word := PRESENT + USER
  const READ_WRITE: Word := PRESENT + WRITABLE + USER

  /** The digits of the two kinds of user page: present and user, and writable or not. */
  lemma FlagValues()
    ensures Bit(READ_ONLY, 0) && !Bit(READ_ONLY, 1) && Bit(READ_ONLY, 2)
    ensures Bit(READ_WRITE, 0) && Bit(READ_WRITE, 1) && Bit(READ_WRITE, 2)
    ensures Bit(WRITABLE, 1)
  {
  }

  type PageMap = f: seq<Word> | |f| == 0x10_0000 ghost witness seq(0x10_0000, _ => 0)

  // ---- The flat map ----

  /** The physical address that virtual address v reaches. */
  function Translate(f: PageMap, v: Word): Word {
    Frame(f[v / PAGE]) + v % PAGE
  }

  ghost function Identity(flags: Word): PageMap {
    seq(PAGES, p requires 0 <= p < PAGES => Or(PAGE * p, flags))
  }

  /** Distance from page vp to page p, going up and around the 4 GB space. */
  function Offset(p: int, vp: int): (j: int)
    ensures 0 <= j < PAGES
  {
    (p - vp) % PAGES
  }

  /** `count` pages from vp on, around the address space, onto consecutive frames. */
  ghost function Mapped(f: PageMap, vp: int, phys: Word, count: nat, flags: Word): PageMap
    requires phys + PAGE * count <= TWO32
  {
    seq(PAGES, p requires 0 <= p < PAGES =>
      var j := Offset(p, vp);
      if j < count then Or(phys + PAGE * j, flags) else f[p])
  }

  lemma MapNextPage(f: PageMap, vp: int, phys: Word, count: nat, flags: Word, p: nat)
    requires phys + PAGE * (count + 1) <= TWO32 && p == (vp + count) % PAGES
    ensures Mapped(f, vp, phys, count + 1, flags)
            == Mapped(f, vp, phys, count, flags)[p := Or(phys + PAGE * count, flags)]
  {
  }

  /** A fresh space maps every address to itself. */
  lemma IdentityTranslates(flags: Word, v: Word)
    requires flags < PAGE
    ensures Translate(Identity(flags), v) == v
  {
    OrFlags(PAGE * (v / PAGE), flags);
  }

  // ---- The two-level structure ----

  /** Block numbers of the chunk record, the directory and the page tables. */
  datatype Space = Space(chunk: nat, dir: nat, tables: seq<nat>)

  predicate Shape(sp: Space) {
    && |sp.tables| == WORDS && Distinct(sp.tables)
    && sp.dir !in sp.tables && sp.chunk !in sp.tables && sp.chunk != sp.dir
  }

  function Blocks(sp: Space): set<nat> {
    {sp.chunk, sp.dir} + Elements(sp.tables)
  }

  /** Every block of the space is a live one-block run. */
  ghost predicate Owned(live: Runs, sp: Space) {
    forall b | b in Blocks(sp) :: b in live && live[b] == 1
  }

  lemma OwnedKept(live: Runs, sp: Space, b: nat)
    requires Owned(live, sp) && b !in Blocks(sp)
    ensures Owned(live - {b}, sp)
  {
  }

  lemma OwnedGrows(live: Runs, sp: Space, b: nat, n: nat)
    requires Owned(live, sp) && b !in live
    ensures Owned(live[b := n], sp)
  {
  }

  predicate InPool(words: nat, b: nat) {
    WORDS * (b + 1) <= words
  }

  /** The pool word that holds directory entry i. */
  function DirWord(sp: Space, i: nat): (w: nat)
    ensures i < WORDS ==> w / WORDS == sp.dir
  {
    WORDS * sp.dir + i
  }

  /** The record points to the directory and the directory to the tables. */
  ghost predicate Wired(saddr: Word, mem: seq<Word>, sp: Space) {
    && Shape(sp)
    && (forall i | 0 <= i < WORDS :: InPool(|mem|, sp.tables[i]))
    && InPool(|mem|, sp.chunk) && InPool(|mem|, sp.dir)
    && mem[WORDS * sp.chunk] == saddr + PAGE * sp.dir
    && forall i | 0 <= i < WORDS :: Frame(mem[DirWord(sp, i)]) == saddr + PAGE * sp.tables[i]
  }

  /** The pool word that holds the entry of page p. */
  function Slot(sp: Space, p: nat): (w: nat)
    requires |sp.tables| == WORDS && p < PAGES
    ensures w / WORDS == sp.tables[p / WORDS]
  {
    WORDS * sp.tables[p / WORDS] + p % WORDS
  }

  /** The flat map that the two levels stand for. */
  ghost function Flat(saddr: Word, mem: seq<Word>, sp: Space): PageMap
    requires Wired(saddr, mem, sp)
  {
    seq(PAGES, p requires 0 <= p < PAGES =>
      assert InPool(|mem|, sp.tables[p / WORDS]); mem[Slot(sp, p)])
  }

  // ---- The processor's walk ----

  /** The word at a physical address of the pool. */
  function PhysWord(saddr: Word, mem: seq<Word>, addr: int): Word {
    if saddr <= addr < saddr + 4 * |mem| then mem[(addr - saddr) / 4] else 0
  }

  /** The page entry that the processor finds for v: bits 31-22 choose the directory entry,
      bits 21-12 the table entry, and the low 12 bits of an entry are no part of an address. */
  function WalkEntry(saddr: Word, mem: seq<Word>, cr3: Word, v: Word): Word {
    var pde := PhysWord(saddr, mem, cr3 + 4 * (v / 0x40_0000));
    PhysWord(saddr, mem, pde - pde % 0x1000 + 4 * (v / 0x1000 % 0x400))
  }

  /** With the directory of a wired space in CR3 the processor finds, for every address, the
      flat map's entry. */
  lemma WalkIsFlat(saddr: Word, mem: seq<Word>, sp: Space, v: Word)
    requires Wired(saddr, mem, sp)
    ensures var e := WalkEntry(saddr, mem, mem[WORDS * sp.chunk], v);
      && e == Flat(saddr, mem, sp)[v / 0x1000]
      && e - e % 0x1000 + v % 0x1000 == Translate(Flat(saddr, mem, sp), v)
  {
    var p, i, cr3 := v / PAGE, v / 0x40_0000, mem[WORDS * sp.chunk];
    assert p / WORDS == i && InPool(|mem|, sp.tables[i]);
    assert PhysWord(saddr, mem, cr3 + 4 * i) == mem[DirWord(sp, i)];
    assert PhysWord(saddr, mem, saddr + PAGE * sp.tables[i] + 4 * (p % WORDS)) == mem[Slot(sp, p)];
  }

  // ---- Frames ----

  /** Writing outside a space's blocks leaves the space and its flat map alone. */
  lemma SpaceFrame(saddr: Word, mem: seq<Word>, mem': seq<Word>, sp: Space, blocks: set<nat>)
    requires Wired(saddr, mem, sp) && SameOutside(mem, mem', blocks) && blocks !! Blocks(sp)
    ensures Wired(saddr, mem', sp) && Flat(saddr, mem', sp) == Flat(saddr, mem, sp)
  {
  }

  /** Storing one page entry updates the flat map at that page only, and only a table. */
  lemma StoreEntry(saddr: Word, mem: seq<Word>, sp: Space, p: nat, v: Word)
    requires Wired(saddr, mem, sp) && p < PAGES
    ensures Slot(sp, p) < |mem|
    ensures var mem' := mem[Slot(sp, p) := v];
      && Wired(saddr, mem', sp)
      && Flat(saddr, mem', sp) == Flat(saddr, mem, sp)[p := v]
      && SameOutside(mem, mem', Elements(sp.tables))
  {
  }
}
