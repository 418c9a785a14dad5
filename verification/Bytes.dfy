/** The bytes of little-endian 32-bit words. */
module Bytes {
  import opened Bits

  function Place(k: int): int {
    if k == 0 then 1 else if k == 1 then 0x100 else if k == 2 then 0x1_0000 else 0x100_0000
  }

  function ByteOf(w: Word, k: int): Octet {
    w / Place(k) % 0x100
  }

  function WithByte(w: Word, k: int, b: Octet): (r: Word)
    requires 0 <= k < 4
  {
    WithByteBound(w, k, b);
    w - ByteOf(w, k) * Place(k) + b * Place(k)
  }

  lemma WithByteBound(w: Word, k: int, b: Octet)
    requires 0 <= k < 4
    ensures 0 <= w - ByteOf(w, k) * Place(k) + b * Place(k) < TWO32
  {
    var p, q := w / Place(k), ByteOf(w, k);
    assert k == 0 || k == 1 || k == 2 || k == 3;
  }

  function Pack(b0: Octet, b1: Octet, b2: Octet, b3: Octet): Word {
    b0 as int + 0x100 * b1 as int + 0x1_0000 * b2 as int + 0x100_0000 * b3 as int
  }

  lemma ByteOfPack(b0: Octet, b1: Octet, b2: Octet, b3: Octet)
    ensures var w := Pack(b0, b1, b2, b3);
      ByteOf(w, 0) == b0 && ByteOf(w, 1) == b1 && ByteOf(w, 2) == b2 && ByteOf(w, 3) == b3
  {
    var w := Pack(b0, b1, b2, b3);
    var c0: int, c1: int, c2: int, c3: int := b0, b1, b2, b3;
    DivMod(w, 0x100, c1 + 0x100 * c2 + 0x1_0000 * c3, c0);
    DivMod(w / 0x100, 0x100, c2 + 0x100 * c3, c1);
    DivMod(w, 0x1_0000, c2 + 0x100 * c3, c0 + 0x100 * c1);
    DivMod(w / 0x1_0000, 0x100, c3, c2);
    DivMod(w, 0x100_0000, c3, c0 + 0x100 * c1 + 0x1_0000 * c2);
  }

  lemma ByteQuotients(w: Word)
    ensures ByteOf(w, 0) == w % 0x100 && ByteOf(w, 1) == w / 0x100 % 0x100
    ensures ByteOf(w, 2) == w / 0x1_0000 % 0x100 && ByteOf(w, 3) == w / 0x100_0000
  {
  }

  lemma Unpack(w: Word)
    ensures w == Pack(ByteOf(w, 0), ByteOf(w, 1), ByteOf(w, 2), ByteOf(w, 3))
  {
    hide ByteOf;
    ByteQuotients(w);
    var x := w / 0x100;
    var y := x / 0x100;
    var z := y / 0x100;
    DivMod(w, 0x1_0000, y, 0x100 * (x % 0x100) + w % 0x100);
    DivMod(w, 0x100_0000, z, 0x1_0000 * (y % 0x100) + 0x100 * (x % 0x100) + w % 0x100);
  }

  lemma PackZero()
    ensures Pack(0, 0, 0, 0) == 0
  {
  }

  /** The low bytes of a word as remainders. */
  lemma LowBytes(b0: Octet, b1: Octet, b2: Octet, b3: Octet)
    ensures var w := Pack(b0, b1, b2, b3);
      && w - w % 0x100 == Pack(0, b1, b2, b3)
      && w - w % 0x1_0000 == Pack(0, 0, b2, b3)
      && w - w % 0x100_0000 == Pack(0, 0, 0, b3)
  {
    var w := Pack(b0, b1, b2, b3);
    var c0: int, c1: int, c2: int, c3: int := b0, b1, b2, b3;
    DivMod(w, 0x100, c1 + 0x100 * c2 + 0x1_0000 * c3, c0);
    DivMod(w, 0x1_0000, c2 + 0x100 * c3, c0 + 0x100 * c1);
    DivMod(w, 0x100_0000, c3, c0 + 0x100 * c1 + 0x1_0000 * c2);
  }

  /** Writing one byte of a word leaves the other three. */
  lemma ByteOfWithByte(w: Word, k: int, b: Octet, j: int)
    requires 0 <= k < 4 && 0 <= j < 4
    ensures ByteOf(WithByte(w, k, b), j) == if j == k then b else ByteOf(w, j)
  {
    hide ByteOf;
    var b0, b1, b2, b3 := ByteOf(w, 0), ByteOf(w, 1), ByteOf(w, 2), ByteOf(w, 3);
    Unpack(w);
    ByteOfPack(if k == 0 then b else b0, if k == 1 then b else b1,
               if k == 2 then b else b2, if k == 3 then b else b3);
    assert WithByte(w, k, b) == Pack(if k == 0 then b else b0, if k == 1 then b else b1,
                                     if k == 2 then b else b2, if k == 3 then b else b3);
  }

  function LoadByte(mem: seq<Word>, i: nat): Octet
    requires i < 4 * |mem|
  {
    ByteOf(mem[i / 4], i % 4)
  }

  lemma LoadStored(mem: seq<Word>, i: nat, b: Octet, j: nat)
    requires i < 4 * |mem| && j < 4 * |mem|
    ensures var mem' := mem[i / 4 := WithByte(mem[i / 4], i % 4, b)];
      LoadByte(mem', j) == if j == i then b else LoadByte(mem, j)
  {
    ByteOfWithByte(mem[i / 4], i % 4, b, j % 4);
  }
}
