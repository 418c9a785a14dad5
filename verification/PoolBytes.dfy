/** Byte access to the pool's little-endian words, and strncpy into and out of it. */
module PoolBytes {
  import opened Bits
  import opened Bytes
  import opened HeapTable
  import opened KernelHeap

  /** A string in a live block survives writes that keep live blocks. */
  lemma StringKept(live: Runs, mem: seq<Word>, mem': seq<Word>, b: nat, s: seq<Octet>)
    requires HoldsString(mem, PAGE * b, s) && |s| < PAGE
    requires KeepsLive(live, mem, mem') && LiveBlock(live, b)
    ensures HoldsString(mem', PAGE * b, s)
  {
    hide ByteOf;
    forall j: nat | PAGE * b <= j <= PAGE * b + |s|
      ensures LoadByte(mem', j) == LoadByte(mem, j)
    {
      assert j / 4 / WORDS == b;
    }
  }

  method StoreByte(h: Heap, i: nat, b: Octet)
    requires i < 4 * h.pool.Length
    modifies h.pool
    ensures SameOutside(old(h.pool[..]), h.pool[..], {i / PAGE})
    ensures LoadByte(h.pool[..], i) == b
    ensures forall j: nat | j < 4 * h.pool.Length && j != i ::
      LoadByte(h.pool[..], j) == LoadByte(old(h.pool[..]), j)
  {
    ghost var mem := h.pool[..];
    h.pool[i / 4] := WithByte(h.pool[i / 4], i % 4, b);
    assert h.pool[..] == mem[i / 4 := WithByte(mem[i / 4], i % 4, b)];
    forall j: nat | j < 4 * h.pool.Length
      ensures LoadByte(h.pool[..], j) == if j == i then b else LoadByte(mem, j)
    {
      LoadStored(mem, i, b, j);
    }
  }

  /** What strncpy copies of a string, without its terminator. */
  function Prefix(s: seq<Octet>, n: nat): (r: seq<Octet>)
    ensures r <= s && |r| == if n == 0 then 0 else if |s| < n then |s| else n - 1
  {
    if n == 0 then [] else if |s| < n - 1 then s else s[..n - 1]
  }

  /** The pool holds s and its terminator from byte `at` on. */
  ghost predicate HoldsString(mem: seq<Word>, at: nat, s: seq<Octet>) {
    && at + |s| < 4 * |mem|
    && (forall j: nat | at <= j < at + |s| :: LoadByte(mem, j) == s[j - at])
    && LoadByte(mem, at + |s|) == 0
  }

  /** strncpy into a pool buffer that lies in one block. */
  method CopyIn(h: Heap, at: nat, src: seq<Octet>, n: nat)
    requires 0 !in src && at % PAGE == 0 && at + PAGE <= 4 * h.pool.Length && n <= PAGE
    modifies h.pool
    ensures SameOutside(old(h.pool[..]), h.pool[..], {at / PAGE})
    ensures HoldsString(h.pool[..], at, Prefix(src, n))
    ensures forall i: nat | i < |src| && i + 1 < n :: LoadByte(h.pool[..], at + i) == src[i]
    ensures LoadByte(h.pool[..], at + if n == 0 then 0 else if |src| < n then |src| else n - 1) == 0
  {
    hide LoadByte;
    var i := 0;
    while i < n - 1
      invariant 0 <= i <= |src| && (i == 0 || i <= n - 1)
      invariant SameOutside(old(h.pool[..]), h.pool[..], {at / PAGE})
      invariant forall j: nat | at <= j < at + i :: LoadByte(h.pool[..], j) == src[j - at]
    {
      if i == |src| {
        break;
      }
      StoreByte(h, at + i, src[i]);
      i := i + 1;
    }
    StoreByte(h, at + i, 0);
    assert Prefix(src, n) == src[..i];
  }

  /** strncpy out of a pool buffer that holds a string shorter than n. */
  method CopyOut(h: Heap, at: nat, n: nat, ghost s: seq<Octet>) returns (out: seq<Octet>)
    requires HoldsString(h.pool[..], at, s) && 0 !in s && (n == 0 || |s| < n)
    ensures out == if n == 0 then [] else s
  {
    out := [];
    while |out| < n - 1
      invariant |out| <= |s| && out == s[..|out|] && (n >= 1 ==> |out| <= n - 1)
      invariant n == 0 ==> out == []
      decreases n - |out|
    {
      var b := LoadByte(h.pool[..], at + |out|);
      assert |out| < |s| ==> b == s[|out|];
      if b == 0 {
        break;
      }
      out := out + [b];
    }
  }
}
