/** Bitwise operators on natural numbers, one binary digit at a time, and the
    facts about 12-bit flag fields that 32-bit page entries rely on. */
module Bits {

  const TWO32: int := 0x1_0000_0000
  const PAGE: int := 4096
  const ADDRESS_MASK: Word := 0xffff_f000

  /** An unsigned 32-bit machine word. */
  type Word = x: int | 0 <= x < 0x1_0000_0000

  /** An unsigned byte. */
  type Octet = x: int | 0 <= x < 0x100

  /** Quotient and remainder are the only ones. */
  lemma DivMod(x: int, d: int, q: int, r: int)
    requires 0 <= r < d && x == d * q + r
    ensures x / d == q && x % d == r
  {
    var e := x / d - q;
    assert e >= 1 ==> d * e >= d;
    assert e <= -1 ==> d * e <= -d;
    assert d * e == r - x % d;
  }

  /** x shifted left by k digits. */
  function Shl(x: nat, k: nat): (r: nat)
    ensures r >= x
  {
    if k == 0 then x else 2 * Shl(x, k - 1)
  }

  function BitOr(x: nat, y: nat): nat {
    if x == 0 then y
    else if y == 0 then x
    else 2 * BitOr(x / 2, y / 2) + if x % 2 == 1 || y % 2 == 1 then 1 else 0
  }

  function BitAnd(x: nat, y: nat): nat {
    if x == 0 || y == 0 then 0
    else 2 * BitAnd(x / 2, y / 2) + if x % 2 == 1 && y % 2 == 1 then 1 else 0
  }

  lemma {:induction false} OrBound(x: nat, y: nat, k: nat)
    requires x < Shl(1, k) && y < Shl(1, k)
    ensures BitOr(x, y) < Shl(1, k)
  {
    if x != 0 && y != 0 {
      OrBound(x / 2, y / 2, k - 1);
    }
  }

  lemma OrDigit(x: nat, b: nat, y: nat, c: nat)
    requires b < 2 && c < 2
    ensures BitOr(2 * x + b, 2 * y + c) == 2 * BitOr(x, y) + if b == 1 || c == 1 then 1 else 0
  {
  }

  lemma AndEven(x: nat, b: nat, n: nat)
    requires b < 2
    ensures BitAnd(2 * x + b, 2 * n) == 2 * BitAnd(x, n)
  {
  }

  /** Or-ing a low field into a word leaves the high part alone. */
  lemma {:induction false} OrLow(q: nat, k: nat, f: nat, g: nat)
    requires f < Shl(1, k) && g < Shl(1, k)
    ensures BitOr(Shl(q, k) + f, g) == Shl(q, k) + BitOr(f, g)
  {
    if k == 0 {
    } else {
      OrLow(q, k - 1, f / 2, g / 2);
      OrDigit(Shl(q, k - 1) + f / 2, f % 2, g / 2, g % 2);
      OrDigit(f / 2, f % 2, g / 2, g % 2);
    }
  }

  /** And-ing with a mask whose low k bits are clear drops the low k bits. */
  lemma {:induction false} AndHigh(q: nat, k: nat, f: nat, m: nat)
    requires f < Shl(1, k)
    ensures BitAnd(Shl(q, k) + f, Shl(m, k)) == Shl(BitAnd(q, m), k)
  {
    if k == 0 {
    } else {
      AndHigh(q, k - 1, f / 2, m);
      AndEven(Shl(q, k - 1) + f / 2, f % 2, Shl(m, k - 1));
    }
  }

  lemma {:induction false} AndOnes(q: nat, k: nat)
    requires q < Shl(1, k)
    ensures BitAnd(q, Shl(1, k) - 1) == q
  {
    if q != 0 {
      AndOnes(q / 2, k - 1);
    }
  }

  lemma ShlFour(x: nat, k: nat)
    ensures Shl(x, k + 4) == 16 * Shl(x, k)
  {
    assert Shl(x, k + 4) == 2 * Shl(x, k + 3);
    assert Shl(x, k + 2) == 2 * Shl(x, k + 1);
  }

  lemma ShlValues(x: nat)
    ensures Shl(x, 12) == PAGE * x && Shl(x, 20) == 0x10_0000 * x && Shl(x, 32) == TWO32 * x
  {
    ShlFour(x, 0); ShlFour(x, 4); ShlFour(x, 8); ShlFour(x, 12);
    ShlFour(x, 16); ShlFour(x, 20); ShlFour(x, 24); ShlFour(x, 28);
  }

  // ---- Words ----

  predicate Bit(x: nat, k: nat) {
    if k == 0 then x % 2 == 1 else Bit(x / 2, k - 1)
  }

  /** r is x | y: every digit of r is set exactly when it is set in x or in y. */
  ghost predicate IsOr(x: nat, y: nat, r: nat) {
    forall k: nat :: Bit(r, k) <==> Bit(x, k) || Bit(y, k)
  }

  lemma {:induction false} BitOrIsOr(x: nat, y: nat, k: nat)
    ensures Bit(BitOr(x, y), k) <==> Bit(x, k) || Bit(y, k)
    decreases k
  {
    hide BitOr;
    OrDigit(x / 2, x % 2, y / 2, y % 2);
    DivMod(BitOr(x, y), 2, BitOr(x / 2, y / 2), if x % 2 == 1 || y % 2 == 1 then 1 else 0);
    if k > 0 {
      BitOrIsOr(x / 2, y / 2, k - 1);
    }
  }

  lemma {:induction false} SameDigits(x: nat, y: nat)
    requires forall k: nat :: Bit(x, k) <==> Bit(y, k)
    ensures x == y
    decreases x + y
  {
    if x + y > 0 {
      assert Bit(x, 0) <==> Bit(y, 0);
      forall k: nat
        ensures Bit(x / 2, k) <==> Bit(y / 2, k)
      {
        assert Bit(x, k + 1) <==> Bit(y, k + 1);
      }
      SameDigits(x / 2, y / 2);
    }
  }

  /** x | y, given by its digits. */
  ghost function Or(x: Word, y: Word): (r: Word)
    ensures IsOr(x, y, r)
  {
    OrExists(x, y);
    var r: Word :| IsOr(x, y, r);
    r
  }

  lemma OrExists(x: Word, y: Word)
    ensures BitOr(x, y) < TWO32 && IsOr(x, y, BitOr(x, y))
  {
    ShlValues(1);
    OrBound(x, y, 32);
    forall k: nat
      ensures Bit(BitOr(x, y), k) <==> Bit(x, k) || Bit(y, k)
    {
      BitOrIsOr(x, y, k);
    }
  }

  /** The digit-by-digit computation is the or of its digits. */
  lemma OrIsBitOr(x: Word, y: Word)
    ensures Or(x, y) == BitOr(x, y)
  {
    OrExists(x, y);
    SameDigits(Or(x, y), BitOr(x, y));
  }

  method OrWord(x: Word, y: Word) returns (r: Word)
    ensures r == Or(x, y)
  {
    OrIsBitOr(x, y);
    r := BitOr(x, y);
  }

  /** The frame address held in a page entry. */
  function Frame(x: Word): Word {
    x - x % PAGE
  }

  /** `entry & 0xfffff000` is the frame address. */
  lemma FrameIsMask(x: Word)
    ensures BitAnd(x, ADDRESS_MASK) == Frame(x)
  {
    var q := x / PAGE;
    ShlValues(1); ShlValues(q); ShlValues(0xf_ffff);
    AndHigh(q, 12, x % PAGE, 0xf_ffff);
    AndOnes(q, 20);
  }

  /** Or-ing flags below 4096 into a page-aligned word with flags only changes the flags. */
  lemma OrPage(a: Word, f: Word, g: Word)
    requires a % PAGE == 0 && f < PAGE && g < PAGE
    ensures Or(a + f, g) == a + Or(f, g) && Or(f, g) < PAGE
  {
    hide Shl, BitOr, IsOr;
    var q := a / PAGE;
    ShlValues(1); ShlValues(q);
    OrLow(q, 12, f, g);
    OrBound(f, g, 12);
    OrIsBitOr(a + f, g);
    OrIsBitOr(f, g);
  }

  /** A page-aligned address or-ed with flags below 4096 is their sum. */
  lemma OrFlags(a: Word, f: Word)
    requires a % PAGE == 0 && f < PAGE
    ensures Or(a, f) == a + f && Frame(Or(a, f)) == a
  {
    OrPage(a, 0, f);
    OrIsBitOr(0, f);
  }

  lemma LowDigits(x: nat)
    ensures Bit(x, 0) <==> x % 2 == 1
    ensures Bit(x, 1) <==> x / 2 % 2 == 1
    ensures Bit(x, 2) <==> x / 2 / 2 % 2 == 1
  {
    assert Bit(x, 2) == Bit(x / 2, 1) == Bit(x / 2 / 2, 0);
  }

  /** The three lowest digits of an entry, present, writable and user, are those of its flags. */
  lemma FlagDigits(e: Word, flags: Word)
    requires e % PAGE == flags
    ensures Bit(e, 0) <==> Bit(flags, 0)
    ensures Bit(e, 1) <==> Bit(flags, 1)
    ensures Bit(e, 2) <==> Bit(flags, 2)
  {
    hide Bit;
    LowDigits(e);
    LowDigits(flags);
    var q, a, b := e / PAGE, flags / 2, flags / 2 / 2;
    DivMod(e, 2, 2048 * q + a, flags % 2);
    DivMod(e / 2, 2, 1024 * q + b, a % 2);
    DivMod(e / 2 / 2, 2, 512 * q + b / 2, b % 2);
  }

  /** Two flag fields or-ed in turn still leave the frame address intact. */
  lemma OrTwoFlags(a: Word, f: Word, g: Word)
    requires a % PAGE == 0 && f < PAGE && g < PAGE
    ensures Or(Or(a, f), g) == a + Or(f, g) && Frame(Or(Or(a, f), g)) == a
  {
    OrFlags(a, f);
    OrPage(a, f, g);
  }
}
