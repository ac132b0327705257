/** 32-bit words, C's operators on them, and the bit operations the kernel applies to page entries. */
module Words {

  const WORD_LIMIT := 0x1_0000_0000
  const PAGE_SIZE := 4096
  const PAGE_MASK: u32 := 0xffff_f000

  // status.h: functions return the negated code
  const EIO := 1
  const EINVARG := 2
  const ENOMEM := 3
  const EISTKN := 8

  type u32 = x: int | 0 <= x < 0x1_0000_0000

  /** Reduction modulo 2^32, as in every unsigned operation and pointer addition. */
  function Wrap(x: int): u32 {
    x % WORD_LIMIT
  }

  /** The C conversion from `unsigned int` to `int`. */
  function Signed(w: u32): (i: int)
    ensures -0x8000_0000 <= i < 0x8000_0000 && Wrap(i) == w
  {
    if w < 0x8000_0000 then w else w - WORD_LIMIT
  }

  /** C's `/`, which truncates toward zero. */
  function TruncDiv(a: int, b: int): (q: int)
    requires b > 0
  {
    if a >= 0 then a / b else -((-a) / b)
  }

  /** C's `%`, whose sign follows the dividend. */
  function TruncMod(a: int, b: int): (r: int)
    requires b > 0
    ensures a == TruncDiv(a, b) * b + r
    ensures -b < r < b && (a >= 0 ==> r >= 0) && (a <= 0 ==> r <= 0)
  {
    if a >= 0 then a % b else -((-a) % b)
  }

  // ---- bitwise operations, bit by bit ----

  function Or(a: nat, b: nat): nat {
    if a == 0 then b
    else if b == 0 then a
    else 2 * Or(a / 2, b / 2) + (if a % 2 == 1 || b % 2 == 1 then 1 else 0)
  }

  function And(a: nat, b: nat): nat {
    if a == 0 || b == 0 then 0
    else 2 * And(a / 2, b / 2) + (if a % 2 == 1 && b % 2 == 1 then 1 else 0)
  }

  predicate Bit(x: nat, k: nat) {
    if k == 0 then x % 2 == 1 else Bit(x / 2, k - 1)
  }

  /** Every bit of a | b is set exactly when it is set in a or in b. */
  lemma {:induction false} OrBits(a: nat, b: nat, k: nat)
    ensures Bit(Or(a, b), k) <==> Bit(a, k) || Bit(b, k)
    decreases k
  {
    OrUnfold(a, b);
    if a == 0 || b == 0 {
      ZeroBits(k);
    } else if k > 0 {
      OrBits(a / 2, b / 2, k - 1);
    }
  }

  lemma {:induction false} AndBits(a: nat, b: nat, k: nat)
    ensures Bit(And(a, b), k) <==> Bit(a, k) && Bit(b, k)
    decreases k
  {
    AndUnfold(a, b);
    if a == 0 || b == 0 {
      ZeroBits(k);
    } else if k > 0 {
      AndBits(a / 2, b / 2, k - 1);
    }
  }

  lemma {:induction false} ZeroBits(k: nat)
    ensures !Bit(0, k)
  {
    if k > 0 {
      ZeroBits(k - 1);
    }
  }

  /** The three lowest bits are what is read off with / and %. */
  lemma LowBits(x: nat)
    ensures Bit(x, 0) <==> x % 2 == 1
    ensures Bit(x, 1) <==> x / 2 % 2 == 1
    ensures Bit(x, 2) <==> x / 4 % 2 == 1
  {
    assert x / 2 / 2 == x / 4;
  }

  /** `f << k`. */
  function Shl(f: nat, k: nat): nat {
    if k == 0 then f else 2 * Shl(f, k - 1)
  }

  lemma ShlValues(f: nat)
    ensures Shl(f, 12) == 4096 * f && Shl(f, 20) == 0x10_0000 * f && Shl(f, 32) == WORD_LIMIT * f
  {
    ShlFour(f, 0);
    ShlFour(f, 4);
    ShlFour(f, 8);
    ShlFour(f, 12);
    ShlFour(f, 16);
    ShlFour(f, 20);
    ShlFour(f, 24);
    ShlFour(f, 28);
  }

  lemma ShlFour(f: nat, k: nat)
    ensures Shl(f, k + 4) == 16 * Shl(f, k)
  {
    assert Shl(f, k + 2) == 2 * Shl(f, k + 1);
    assert Shl(f, k + 4) == 2 * Shl(f, k + 3);
  }

  lemma {:induction false} OrBelow(a: nat, b: nat, k: nat)
    requires a < Shl(1, k) && b < Shl(1, k)
    ensures Or(a, b) < Shl(1, k)
  {
    if k > 0 {
      OrBelow(a / 2, b / 2, k - 1);
    }
  }

  /** Or-ing into the low k bits never disturbs the bits above them. */
  lemma {:induction false} OrSplit(f: nat, b: nat, c: nat, k: nat)
    requires b < Shl(1, k) && c < Shl(1, k)
    ensures Or(Shl(f, k) + b, c) == Shl(f, k) + Or(b, c)
  {
    if k > 0 {
      OrSplit(f, b / 2, c / 2, k - 1);
      var a := Shl(f, k) + b;
      assert a / 2 == Shl(f, k - 1) + b / 2 && a % 2 == b % 2;
      OrUnfold(a, c);
      OrUnfold(b, c);
    }
  }

  lemma OrUnfold(a: nat, b: nat)
    ensures Or(a, b) == 2 * Or(a / 2, b / 2) + (if a % 2 == 1 || b % 2 == 1 then 1 else 0)
  {
  }

  /** The bits below the k-th are those of what is added to a shifted number. */
  lemma {:induction false} BitBelow(q: nat, low: nat, k: nat, b: nat)
    requires b < k
    ensures Bit(Shl(q, k) + low, b) <==> Bit(low, b)
    decreases k
  {
    assert Shl(q, k) == 2 * Shl(q, k - 1);
    if b > 0 {
      assert (Shl(q, k) + low) / 2 == Shl(q, k - 1) + low / 2;
      BitBelow(q, low / 2, k - 1, b - 1);
    }
  }

  /** Masking with zeros in the low k bits drops exactly those bits. */
  lemma {:induction false} AndSplit(q: nat, r: nat, m: nat, k: nat)
    requires r < Shl(1, k)
    ensures And(Shl(q, k) + r, Shl(m, k)) == Shl(And(q, m), k)
  {
    if k > 0 {
      AndSplit(q, r / 2, m, k - 1);
      var a := Shl(q, k) + r;
      assert a / 2 == Shl(q, k - 1) + r / 2;
      AndUnfold(a, Shl(m, k));
    }
  }

  lemma AndUnfold(a: nat, b: nat)
    ensures And(a, b) == 2 * And(a / 2, b / 2) + (if a % 2 == 1 && b % 2 == 1 then 1 else 0)
  {
  }

  lemma {:induction false} AndAllOnes(x: nat, k: nat)
    requires x < Shl(1, k)
    ensures And(x, Shl(1, k) - 1) == x
  {
    if k > 0 {
      AndAllOnes(x / 2, k - 1);
      AndUnfold(x, Shl(1, k) - 1);
    }
  }

  /** Or-ing flags into an aligned address that already carries flags keeps the address. */
  lemma OrFlags(base: u32, low: nat, flags: nat)
    requires base % 4096 == 0 && low < 4096 && flags < 4096
    ensures Or(base + low, flags) == base + Or(low, flags)
    ensures Or(low, flags) < 4096
  {
    ShlValues(1);
    ShlValues(base / 4096);
    OrSplit(base / 4096, low, flags, 12);
    OrBelow(low, flags, 12);
  }

  /** `|` on two 32-bit words; an aligned address and flags simply add up. */
  function OrWord(a: u32, b: u32): u32 {
    if a % 4096 == 0 && b < 4096 then a + b else
      ShlValues(1);
      OrBelow(a, b, 32);
      Or(a, b)
  }

  lemma OrWordIsOr(a: u32, b: u32)
    ensures OrWord(a, b) == Or(a, b)
  {
    if a % 4096 == 0 && b < 4096 {
      OrFlags(a, 0, b);
    }
  }

  /** The frame address held in a page-directory or page-table entry. */
  function PageBase(e: u32): u32 {
    e - e % 4096
  }

  /** Adding flags with the bitwise or does not disturb it. */
  lemma OrKeepsBase(base: u32, low: nat, flags: nat)
    requires base % 4096 == 0 && low < 4096 && flags < 4096
    ensures base + low < WORD_LIMIT && PageBase(OrWord(base + low, flags)) == base
  {
    OrFlags(base, low, flags);
    OrWordIsOr(base + low, flags);
    AddedLow(base, Or(low, flags));
  }

  lemma AddedLow(base: u32, x: nat)
    requires base % 4096 == 0 && x < 4096
    ensures base + x - (base + x) % 4096 == base
  {
  }

  /** `entry & 0xfffff000` is that address: it drops exactly the twelve flag bits. */
  lemma PageBaseIsMask(e: u32)
    ensures And(e, PAGE_MASK) == PageBase(e)
  {
    ShlValues(1);
    ShlValues(e / 4096);
    ShlValues(0xf_ffff);
    AndSplit(e / 4096, e % 4096, 0xf_ffff, 12);
    AndAllOnes(e / 4096, 20);
  }
}
