/** The address bounds of an ELF image, gathered header by header. */
module ElfBounds {
  import opened Bits
  import opened Loader

  const PT_LOAD: Word := 1

  datatype Bounds = Bounds(virtualBase: Word, physBase: Word, virtualEnd: Word, physEnd: Word)

  const UNSET: Bounds := Bounds(0, 0, 0, 0)

  /** elf_process_phdr_pt_load; zero stands for a bound not yet set. */
  function Widened(b: Bounds, memory: Word, ph: Phdr): Bounds {
    var low := if b.virtualBase >= ph.vaddr || b.virtualBase == 0
               then b.(virtualBase := ph.vaddr, physBase := PhysOf(memory, ph)) else b;
    if low.virtualEnd <= EndOf(ph) || low.virtualEnd == 0
    then low.(virtualEnd := EndOf(ph), physEnd := (memory + ph.offset + ph.filesz) % TWO32) else low
  }

  function Gathered(memory: Word, phdrs: seq<Phdr>, n: nat): Bounds
    requires n <= |phdrs|
  {
    if n == 0 then UNSET
    else if phdrs[n - 1].ptype == PT_LOAD then Widened(Gathered(memory, phdrs, n - 1), memory, phdrs[n - 1])
    else Gathered(memory, phdrs, n - 1)
  }

  class ElfFile {
    const memory: Word
    var bounds: Bounds

    constructor (memory: Word)
      ensures this.memory == memory && bounds == UNSET
    {
      this.memory, bounds := memory, UNSET;
    }

    /** elf_process_phdr_pt_load. */
    method ProcessPtLoad(ph: Phdr)
      modifies this
      ensures bounds == Widened(old(bounds), memory, ph)
    {
      if bounds.virtualBase >= ph.vaddr || bounds.virtualBase == 0 {
        bounds := bounds.(virtualBase := ph.vaddr, physBase := PhysOf(memory, ph));
      }
      var end := (ph.vaddr + ph.filesz) % TWO32;
      if bounds.virtualEnd <= end || bounds.virtualEnd == 0 {
        bounds := bounds.(virtualEnd := end, physEnd := (memory + ph.offset + ph.filesz) % TWO32);
      }
    }

    /** elf_process_pheaders on a file just allocated. */
    method ProcessPheaders(phdrs: seq<Phdr>) returns (res: int)
      requires bounds == UNSET
      modifies this
      ensures res == 0 && bounds == Gathered(memory, phdrs, |phdrs|)
    {
      for i := 0 to |phdrs|
        invariant bounds == Gathered(memory, phdrs, i)
      {
        if phdrs[i].ptype == PT_LOAD {
          ProcessPtLoad(phdrs[i]);
        }
      }
      return 0;
    }
  }

  // ---- What the bounds mean ----

  /** The last of the first n headers that loads and has the least address. */
  ghost predicate LastLowest(phdrs: seq<Phdr>, n: nat, i: nat) {
    && i < n <= |phdrs| && phdrs[i].ptype == 1
    && (forall j | 0 <= j < n && phdrs[j].ptype == 1 :: phdrs[i].vaddr <= phdrs[j].vaddr)
    && (forall j | i < j < n && phdrs[j].ptype == 1 :: phdrs[i].vaddr < phdrs[j].vaddr)
  }

  function EndOf(ph: Phdr): Word {
    (ph.vaddr + ph.filesz) % TWO32
  }

  /** The last of the first n headers that loads and has the greatest end. */
  ghost predicate LastHighest(phdrs: seq<Phdr>, n: nat, i: nat) {
    && i < n <= |phdrs| && phdrs[i].ptype == 1
    && (forall j | 0 <= j < n && phdrs[j].ptype == 1 :: EndOf(phdrs[i]) >= EndOf(phdrs[j]))
    && (forall j | i < j < n && phdrs[j].ptype == 1 :: EndOf(phdrs[i]) > EndOf(phdrs[j]))
  }

  /** Segments that start above zero: the base is the least address of a loaded segment,
      with the physical address of the last segment that has it. */
  lemma {:induction false} BaseIsLowest(memory: Word, phdrs: seq<Phdr>, n: nat) returns (i: int)
    requires n <= |phdrs| && forall j | 0 <= j < n && phdrs[j].ptype == 1 :: phdrs[j].vaddr != 0
    ensures var b := Gathered(memory, phdrs, n);
      if i >= 0 then
        && LastLowest(phdrs, n, i) && b.virtualBase == phdrs[i].vaddr
        && b.physBase == (memory + phdrs[i].offset) % TWO32
      else b.virtualBase == 0 && forall j | 0 <= j < n :: phdrs[j].ptype != 1
  {
    if n == 0 {
      return -1;
    }
    i := BaseIsLowest(memory, phdrs, n - 1);
    if phdrs[n - 1].ptype == 1 && (i < 0 || phdrs[n - 1].vaddr <= phdrs[i].vaddr) {
      i := n - 1;
    }
  }

  lemma {:induction false} EndFold(memory: Word, phdrs: seq<Phdr>, n: nat) returns (i: int)
    requires n <= |phdrs|
    ensures var b := Gathered(memory, phdrs, n);
      if i >= 0 then
        && LastHighest(phdrs, n, i) && b.virtualEnd == EndOf(phdrs[i])
        && b.physEnd == (memory + phdrs[i].offset + phdrs[i].filesz) % TWO32
      else b.virtualEnd == 0 && forall j | 0 <= j < n :: phdrs[j].ptype != 1
  {
    hide PhysOf, EndOf;
    if n == 0 {
      return -1;
    }
    i := EndFold(memory, phdrs, n - 1);
    if phdrs[n - 1].ptype == 1 && (i < 0 || EndOf(phdrs[n - 1]) >= EndOf(phdrs[i])) {
      i := n - 1;
    }
  }

  /** For all headers, an end of zero included: the end is the greatest vaddr + filesz of a
      loaded segment, with the physical end of the last segment that has it. */
  lemma EndIsHighest(memory: Word, phdrs: seq<Phdr>, n: nat) returns (i: int)
    requires n <= |phdrs|
    ensures i < n
    ensures i < 0 ==> forall j | 0 <= j < n :: phdrs[j].ptype != 1
    ensures i >= 0 ==> var b, ph := Gathered(memory, phdrs, n), phdrs[i];
      && ph.ptype == 1 && b.virtualEnd == (ph.vaddr + ph.filesz) % TWO32
      && b.physEnd == (memory + ph.offset + ph.filesz) % TWO32
      && forall j | 0 <= j < n && phdrs[j].ptype == 1 ::
           && (phdrs[j].vaddr + phdrs[j].filesz) % TWO32 <= b.virtualEnd
           && (i < j ==> (phdrs[j].vaddr + phdrs[j].filesz) % TWO32 < b.virtualEnd)
  {
    hide Gathered;
    forall j | 0 <= j < n
      ensures EndOf(phdrs[j]) == (phdrs[j].vaddr + phdrs[j].filesz) % TWO32
    {
    }
    i := EndFold(memory, phdrs, n);
  }

  // ---- A segment at address zero ----

  ghost predicate IsLastLoad(phdrs: seq<Phdr>, n: nat, i: nat) {
    i < n <= |phdrs| && phdrs[i].ptype == 1 && forall j | i < j < n :: phdrs[j].ptype != 1
  }

  /** The base ends at zero exactly when the last loaded segment starts at zero. */
  lemma {:induction false} BaseZeroIff(memory: Word, phdrs: seq<Phdr>, n: nat, i: nat)
    requires IsLastLoad(phdrs, n, i)
    ensures Gathered(memory, phdrs, n).virtualBase == 0 <==> phdrs[i].vaddr == 0
  {
    if i < n - 1 {
      BaseZeroIff(memory, phdrs, n - 1, i);
    }
  }

  /** A segment at zero is forgotten once a later one is seen. */
  lemma ZeroIsForgotten()
    ensures var phdrs := [Phdr(PT_LOAD, 0, 0, 1, 1, 0), Phdr(PT_LOAD, 0, 0x1000, 1, 1, 0)];
      Gathered(0, phdrs, 2).virtualBase == 0x1000
  {
  }

  /** For all headers: the base is the least address of a loaded segment exactly when no
      segment starts at zero or the last loaded one does. */
  lemma BaseIsLowestIff(memory: Word, phdrs: seq<Phdr>, n: nat, last: nat)
    requires IsLastLoad(phdrs, n, last)
    ensures (exists i: nat :: LastLowest(phdrs, n, i) && Gathered(memory, phdrs, n).virtualBase == phdrs[i].vaddr)
            <==> phdrs[last].vaddr == 0 || forall j | 0 <= j < n && phdrs[j].ptype == 1 :: phdrs[j].vaddr != 0
  {
    var b := Gathered(memory, phdrs, n).virtualBase;
    BaseZeroIff(memory, phdrs, n, last);
    if phdrs[last].vaddr == 0 {
      assert LastLowest(phdrs, n, last);
    } else if forall j | 0 <= j < n && phdrs[j].ptype == 1 :: phdrs[j].vaddr != 0 {
      var i := BaseIsLowest(memory, phdrs, n);
    }
  }
}
